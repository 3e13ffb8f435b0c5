// The resharing helpers behind refresh and rotation: which parties enter the
// protocol in which role, and what is assembled from the results. The
// protocol runs themselves are an oracle that may fail or return arbitrary
// shares for every party asked for.
module Resharing {
  import opened Bytes
  import opened Names
  import opened Outcome
  import opened TssErrors

  type Key = Bytes

  // Signers and verifiers are identified by one byte.
  type Party = Byte

  datatype ThresholdShare = ThresholdShare(verifyingKey: Option<Key>, threshold: nat, secret: nat)

  datatype Participant = Participant(index: Byte, party: Party, share: ThresholdShare, aux: nat)

  datatype GroupPublicKey = GroupPublicKey(verifyingKey: Key, address: Bytes)

  datatype Material = Material(participants: seq<Participant>, groupKey: GroupPublicKey, threshold: nat, total: nat)

  datatype NewHolder = NewHolder(verifyingKey: Key, oldThreshold: nat, oldHolders: set<Party>)

  datatype EntryPoint = EntryPoint(
    party: Party, oldHolder: Option<ThresholdShare>, newHolder: Option<NewHolder>,
    newHolders: set<Party>, newThreshold: nat)

  datatype AuxEntry = AuxEntry(party: Party, ids: set<Party>)

  // None is a failed run; a successful one has a result for every party.
  datatype Oracle = Oracle(
    reshare: seq<EntryPoint> -> Option<Party -> Option<ThresholdShare>>,
    auxGen: seq<AuxEntry> -> Option<Party -> nat>)

  function Parties(ps: seq<Participant>): set<Party> {
    set p | p in ps :: p.party
  }

  predicate DistinctParties(ps: seq<Participant>) {
    forall i, j :: 0 <= i < j < |ps| ==> ps[i].party != ps[j].party
  }

  // ----- Refresh: the same parties, each old and new holder at once

  function RefreshHolder(m: Material): NewHolder
    requires m.participants != []
  {
    NewHolder(m.groupKey.verifyingKey, m.participants[0].share.threshold, Parties(m.participants))
  }

  function RefreshEntries(m: Material, n: nat): seq<EntryPoint>
    requires m.participants != [] && n <= |m.participants|
  {
    if n == 0 then []
    else
      var p := m.participants[n - 1];
      RefreshEntries(m, n - 1)
      + [EntryPoint(p.party, Some(p.share), Some(RefreshHolder(m)), Parties(m.participants), m.threshold)]
  }

  function AuxEntries(parties: seq<Party>, ids: set<Party>): seq<AuxEntry> {
    seq(|parties|, i requires 0 <= i < |parties| => AuxEntry(parties[i], ids))
  }

  function PartySeq(ps: seq<Participant>): seq<Party> {
    seq(|ps|, i requires 0 <= i < |ps| => ps[i].party)
  }

  // Every party got a share, and every share names the old group key.
  predicate AllSharesUnder(ps: seq<Participant>, f: Party -> Option<ThresholdShare>, key: Key) {
    forall i :: 0 <= i < |ps| ==> f(ps[i].party).Some? && f(ps[i].party).value.verifyingKey == Some(key)
  }

  function Refreshed(m: Material, f: Party -> Option<ThresholdShare>, g: Party -> nat, address: Key -> Bytes): Material
    requires AllSharesUnder(m.participants, f, m.groupKey.verifyingKey)
  {
    var ps := seq(|m.participants|, i requires 0 <= i < |m.participants| =>
                  m.participants[i].(share := f(m.participants[i].party).value, aux := g(m.participants[i].party)));
    m.(participants := ps, groupKey := GroupPublicKey(m.groupKey.verifyingKey, address(m.groupKey.verifyingKey)))
  }

  function DoRefresh(m: Material, o: Oracle, address: Key -> Bytes): Result<Material, TssError>
    requires m.participants != []
  {
    match o.reshare(RefreshEntries(m, |m.participants|))
    case None => Err(RefreshFailed)
    case Some(f) =>
      if !AllSharesUnder(m.participants, f, m.groupKey.verifyingKey) then Err(RefreshFailed)
      else match o.auxGen(AuxEntries(PartySeq(m.participants), Parties(m.participants)))
        case None => Err(RefreshFailed)
        case Some(g) => Ok(Refreshed(m, f, g, address))
  }

  method DoRefreshViaResharing(m: Material, o: Oracle, address: Key -> Bytes) returns (r: Result<Material, TssError>)
    requires m.participants != []
    ensures r == DoRefresh(m, o, address)
  {
    var ps, key, all := m.participants, m.groupKey.verifyingKey, Parties(m.participants);
    var holder := NewHolder(key, ps[0].share.threshold, all);
    var entries: seq<EntryPoint> := [];
    for i := 0 to |ps|
      invariant entries == RefreshEntries(m, i)
    {
      entries := entries + [EntryPoint(ps[i].party, Some(ps[i].share), Some(holder), all, m.threshold)];
    }
    var run := o.reshare(entries);
    if run.None? { return Err(RefreshFailed); }
    var f := run.value;
    for i := 0 to |ps|
      invariant forall k :: 0 <= k < i ==> f(ps[k].party).Some? && f(ps[k].party).value.verifyingKey == Some(key)
    {
      var share := f(ps[i].party);
      if share.None? || share.value.verifyingKey != Some(key) { return Err(RefreshFailed); }
    }
    var aux := o.auxGen(AuxEntries(PartySeq(ps), all));
    if aux.None? { return Err(RefreshFailed); }
    var rebuilt: seq<Participant> := [];
    for i := 0 to |ps|
      invariant |rebuilt| == i
      invariant forall k :: 0 <= k < i ==>
                  rebuilt[k] == ps[k].(share := f(ps[k].party).value, aux := aux.value(ps[k].party))
    {
      rebuilt := rebuilt + [Participant(ps[i].index, ps[i].party, f(ps[i].party).value, aux.value(ps[i].party))];
    }
    var m' := Material(rebuilt, GroupPublicKey(key, address(key)), m.threshold, m.total);
    assert m'.participants == Refreshed(m, f, aux.value, address).participants;
    r := Ok(m');
  }

  // ----- Rotation: resolving names

  function Decimal(n: nat): Bytes {
    if n < 10 then [48 + n] else Decimal(n / 10) + [48 + n % 10]
  }

  lemma {:induction false} DecimalInjective(m: nat, n: nat)
    requires Decimal(m) == Decimal(n)
    ensures m == n
  {
    DecimalNonEmpty(m / 10);
    DecimalNonEmpty(n / 10);
    if m >= 10 && n >= 10 {
      CancelSuffix(Decimal(m / 10), [48 + m % 10], Decimal(n / 10), [48 + n % 10]);
      DecimalInjective(m / 10, n / 10);
    } else {
      assert Decimal(m)[|Decimal(m)| - 1] == 48 + m % 10;
      assert Decimal(n)[|Decimal(n)| - 1] == 48 + n % 10;
    }
  }

  lemma DecimalNonEmpty(n: nat)
    ensures Decimal(n) != []
  {
  }

  predicate IsDigit(c: Byte) {
    48 <= c <= 57
  }

  function Read10(s: Bytes): int {
    if s == [] then 0 else 10 * Read10(s[..|s| - 1]) + s[|s| - 1] as int - 48
  }

  // Digits that read as the number, without a leading zero.
  lemma {:induction false} DecimalReads(n: nat)
    ensures Read10(Decimal(n)) == n && Decimal(n) != []
    ensures forall i :: 0 <= i < |Decimal(n)| ==> IsDigit(Decimal(n)[i])
    ensures n > 0 ==> Decimal(n)[0] != 48
  {
    if n >= 10 {
      DecimalReads(n / 10);
      assert Decimal(n)[..|Decimal(n)| - 1] == Decimal(n / 10);
    } else {
      assert [48 + n][..0] == [];
    }
  }

  lemma FirstNames()
    ensures PositionName(0) == Ascii("P0") && PositionName(12) == Ascii("P12")
    ensures Alias(0) == Ascii("A") && Alias(1) == Ascii("B") && Alias(2) == Ascii("C")
    ensures Alias(3) == Ascii("D") && Alias(4) == Ascii("E")
  {
    assert Decimal(12) == Decimal(1) + [50] == [49, 50];
  }

  // Position i answers to "P<i>", the first five also to "A".."E".
  function PositionName(i: nat): Name {
    [80] + Decimal(i)
  }

  function Alias(i: nat): Name
    requires i < 5
  {
    [65 + i]
  }

  predicate Answers(name: Name, i: nat) {
    name == PositionName(i) || (i < 5 && name == Alias(i))
  }

  lemma NamesOnePosition(name: Name, i: nat, j: nat)
    requires Answers(name, i) && Answers(name, j)
    ensures i == j
  {
    DecimalNonEmpty(i);
    DecimalNonEmpty(j);
    if name == PositionName(i) && name == PositionName(j) {
      CancelPrefix([80], Decimal(i), [80], Decimal(j));
      DecimalInjective(i, j);
    }
  }

  // The lookup table over n old participants.
  function NameTable(n: nat): map<Name, nat> {
    if n == 0 then map[]
    else
      var t := NameTable(n - 1)[PositionName(n - 1) := n - 1];
      if n - 1 < 5 then t[Alias(n - 1) := n - 1] else t
  }

  lemma {:induction false} NameTableMeaning(n: nat, name: Name, i: nat)
    ensures name in NameTable(n) && NameTable(n)[name] == i <==> i < n && Answers(name, i)
  {
    if n > 0 {
      NameTableMeaning(n - 1, name, i);
      if Answers(name, n - 1) && Answers(name, i) {
        NamesOnePosition(name, i, n - 1);
      }
    }
  }

  function Resolve(name: Name, n: nat): (r: Option<nat>)
    ensures r.Some? ==> r.value < n
  {
    var t := NameTable(n);
    if name in t then
      NameTableMeaning(n, name, t[name]);
      Some(t[name])
    else None
  }

  // ----- Rotation: parties and entry points

  // Cast of 100 + position to a byte.
  function FreshParty(i: nat): Party {
    (100 + i) % 256
  }

  function NewParty(olds: seq<Participant>, names: seq<Name>, i: nat): Party
    requires i < |names|
  {
    match Resolve(names[i], |olds|)
    case Some(k) => olds[k].party
    case None => FreshParty(i)
  }

  function NewParties(olds: seq<Participant>, names: seq<Name>): (r: seq<Party>)
    ensures |r| == |names| && forall i :: 0 <= i < |r| ==> r[i] == NewParty(olds, names, i)
  {
    seq(|names|, i requires 0 <= i < |names| => NewParty(olds, names, i))
  }

  function SetOf(parties: seq<Party>): set<Party> {
    set p | p in parties
  }

  function RotationHolder(m: Material): NewHolder
    requires m.participants != []
  {
    NewHolder(m.groupKey.verifyingKey, m.participants[0].share.threshold, Parties(m.participants))
  }

  // Old participants first, as old holders, also as new ones if they stay.
  function OldEntries(m: Material, news: set<Party>, t: nat, n: nat): seq<EntryPoint>
    requires m.participants != [] && n <= |m.participants|
  {
    if n == 0 then []
    else
      var p := m.participants[n - 1];
      OldEntries(m, news, t, n - 1)
      + [EntryPoint(p.party, Some(p.share), if p.party in news then Some(RotationHolder(m)) else None, news, t)]
  }

  predicate EntersFresh(m: Material, names: seq<Name>, i: nat)
    requires i < |names|
  {
    Resolve(names[i], |m.participants|).None? && FreshParty(i) !in Parties(m.participants)
  }

  // Then the fresh parties among the first n names.
  function FreshEntries(m: Material, names: seq<Name>, news: set<Party>, t: nat, n: nat): seq<EntryPoint>
    requires m.participants != [] && n <= |names|
  {
    if n == 0 then []
    else
      var before := FreshEntries(m, names, news, t, n - 1);
      if EntersFresh(m, names, n - 1)
      then before + [EntryPoint(FreshParty(n - 1), None, Some(RotationHolder(m)), news, t)]
      else before
  }

  function RotationEntries(m: Material, names: seq<Name>, t: nat): seq<EntryPoint>
    requires m.participants != []
  {
    var news := SetOf(NewParties(m.participants, names));
    OldEntries(m, news, t, |m.participants|) + FreshEntries(m, names, news, t, |names|)
  }

  method LookupTable(n: nat) returns (table: map<Name, nat>)
    ensures table == NameTable(n)
  {
    table := map[];
    for idx := 0 to n
      invariant table == NameTable(idx)
    {
      table := table[PositionName(idx) := idx];
      if idx < 5 {
        table := table[Alias(idx) := idx];
      }
    }
  }

  // The new party of every name, and the positions given a fresh id.
  method ChooseParties(olds: seq<Participant>, names: seq<Name>)
    returns (parties: seq<Party>, news: set<Party>, freshMap: map<nat, Party>)
    ensures parties == NewParties(olds, names) && news == SetOf(parties)
    ensures forall k :: k in freshMap <==> 0 <= k < |names| && Resolve(names[k], |olds|).None?
    ensures forall k :: k in freshMap ==> freshMap[k] == FreshParty(k)
  {
    var table := LookupTable(|olds|);
    parties := [];
    news := {};
    freshMap := map[];
    for i := 0 to |names|
      invariant |parties| == i && news == SetOf(parties)
      invariant forall k :: 0 <= k < i ==> parties[k] == NewParty(olds, names, k)
      invariant forall k :: k in freshMap <==> 0 <= k < i && Resolve(names[k], |olds|).None?
      invariant forall k :: k in freshMap ==> freshMap[k] == FreshParty(k)
    {
      if names[i] in table {
        NameTableMeaning(|olds|, names[i], table[names[i]]);
        parties := parties + [olds[table[names[i]]].party];
      } else {
        parties := parties + [FreshParty(i)];
        freshMap := freshMap[i := FreshParty(i)];
      }
      news := news + {parties[i]};
    }
  }

  method RotationEntryPoints(m: Material, names: seq<Name>, t: nat)
    returns (parties: seq<Party>, news: set<Party>, entries: seq<EntryPoint>)
    requires m.participants != []
    ensures parties == NewParties(m.participants, names) && news == SetOf(parties)
    ensures entries == RotationEntries(m, names, t)
  {
    var olds := m.participants;
    var freshMap: map<nat, Party>;
    parties, news, freshMap := ChooseParties(olds, names);
    var holder := NewHolder(m.groupKey.verifyingKey, olds[0].share.threshold, Parties(olds));
    entries := [];
    for i := 0 to |olds|
      invariant entries == OldEntries(m, news, t, i)
    {
      entries := entries + [EntryPoint(olds[i].party, Some(olds[i].share),
                                       if olds[i].party in news then Some(holder) else None, news, t)];
    }
    ghost var oldPart := entries;
    for i := 0 to |names|
      invariant entries == oldPart + FreshEntries(m, names, news, t, i)
    {
      if i in freshMap && parties[i] !in Parties(olds) {
        entries := entries + [EntryPoint(freshMap[i], None, Some(holder), news, t)];
      }
    }
  }

  // ----- Rotation: the whole helper

  function MinParty(s: set<Party>): (m: Party)
    requires s != {}
    ensures m in s && forall p :: p in s ==> m <= p
  {
    LeastExists(s);
    var m: Party :| m in s && forall p :: p in s ==> m <= p;
    m
  }

  lemma {:induction false} LeastExists(s: set<Party>)
    requires s != {}
    ensures exists m: Party :: m in s && forall p :: p in s ==> m <= p
    decreases |s|
  {
    var x :| x in s;
    if s != {x} {
      LeastExists(s - {x});
      var y: Party :| y in s - {x} && forall p :: p in s - {x} ==> y <= p;
      assert s == (s - {x}) + {x};
      var m := if x < y then x else y;
      assert m in s && forall p :: p in s ==> m <= p;
    }
  }

  function Assembled(parties: seq<Party>, f: Party -> Option<ThresholdShare>, g: Party -> nat): seq<Participant>
    requires forall i :: 0 <= i < |parties| ==> f(parties[i]).Some?
  {
    seq(|parties|, i requires 0 <= i < |parties| =>
        Participant(i % 256, parties[i], f(parties[i]).value, g(parties[i])))
  }

  // Only the share of the least party is compared with the group key here.
  function DoRotation(m: Material, names: seq<Name>, t: nat, o: Oracle, address: Key -> Bytes)
    : Result<Material, TssError>
    requires m.participants != []
  {
    if t > |names| then Err(InvalidThreshold)
    else if names == [] then Err(InvalidParticipantSet)
    else
      var parties := NewParties(m.participants, names);
      assert parties[0] in SetOf(parties);
      match o.reshare(RotationEntries(m, names, t))
      case None => Err(RotationFailed)
      case Some(f) =>
        if exists i :: 0 <= i < |parties| && f(parties[i]).None? then Err(RotationFailed)
        else
          assert MinParty(SetOf(parties)) in parties;
          if f(MinParty(SetOf(parties))).value.verifyingKey != Some(m.groupKey.verifyingKey) then Err(RotationFailed)
          else match o.auxGen(AuxEntries(parties, SetOf(parties)))
            case None => Err(RotationFailed)
            case Some(g) =>
              Ok(Material(Assembled(parties, f, g),
                          GroupPublicKey(m.groupKey.verifyingKey, address(m.groupKey.verifyingKey)), t, |names|))
  }

  method DoRotationViaResharing(m: Material, names: seq<Name>, t: nat, o: Oracle, address: Key -> Bytes)
    returns (r: Result<Material, TssError>)
    requires m.participants != []
    ensures r == DoRotation(m, names, t, o, address)
  {
    if t > |names| { return Err(InvalidThreshold); }
    if names == [] { return Err(InvalidParticipantSet); }
    var parties, news, entries := RotationEntryPoints(m, names, t);
    var run := o.reshare(entries);
    if run.None? { return Err(RotationFailed); }
    var f := run.value;
    for i := 0 to |parties|
      invariant forall k :: 0 <= k < i ==> f(parties[k]).Some?
    {
      if f(parties[i]).None? { return Err(RotationFailed); }
    }
    assert parties[0] in news;
    var least := LeastOf(parties, news);
    var vk0 := f(least).value.verifyingKey;
    if vk0.None? { return Err(RotationFailed); }
    if vk0.value != m.groupKey.verifyingKey { return Err(RotationFailed); }
    var aux := o.auxGen(AuxEntries(parties, news));
    if aux.None? { return Err(RotationFailed); }
    var participants: seq<Participant> := [];
    for i := 0 to |parties|
      invariant |participants| == i
      invariant forall k :: 0 <= k < i ==>
                  participants[k] == Participant(k % 256, parties[k], f(parties[k]).value, aux.value(parties[k]))
    {
      participants := participants + [Participant(i % 256, parties[i], f(parties[i]).value, aux.value(parties[i]))];
    }
    assert participants == Assembled(parties, f, aux.value);
    r := Ok(Material(participants, GroupPublicKey(vk0.value, address(vk0.value)), t, |names|));
  }

  // First key of the ordered map of new shares.
  method LeastOf(parties: seq<Party>, s: set<Party>) returns (m: Party)
    requires parties != [] && s == SetOf(parties) && s != {}
    ensures m == MinParty(s) && m in parties
  {
    m := parties[0];
    for i := 1 to |parties|
      invariant m in parties[..i] && forall k :: 0 <= k < i ==> m <= parties[k]
    {
      if parties[i] < m { m := parties[i]; }
    }
    assert m in s && MinParty(s) in s;
  }

  // ----- Who takes part in a rotation

  lemma {:induction false} OldEntryAt(m: Material, news: set<Party>, t: nat, n: nat, i: nat)
    requires m.participants != [] && i < n <= |m.participants|
    ensures |OldEntries(m, news, t, n)| == n
    ensures var p := m.participants[i];
            OldEntries(m, news, t, n)[i]
              == EntryPoint(p.party, Some(p.share), if p.party in news then Some(RotationHolder(m)) else None, news, t)
  {
    if n > 1 {
      OldEntryAt(m, news, t, n - 1, if i < n - 1 then i else 0);
    }
  }

  // The fresh entries are the positions that enter fresh, each in order.
  lemma {:induction false} FreshEntryFrom(m: Material, names: seq<Name>, news: set<Party>, t: nat, n: nat)
    requires m.participants != [] && n <= |names|
    ensures forall e :: e in FreshEntries(m, names, news, t, n) ==>
              && e.oldHolder == None && e.newHolder == Some(RotationHolder(m))
              && e.newHolders == news && e.newThreshold == t
              && exists i :: 0 <= i < n && EntersFresh(m, names, i) && e.party == FreshParty(i)
    ensures forall i :: 0 <= i < n && EntersFresh(m, names, i) ==>
              EntryPoint(FreshParty(i), None, Some(RotationHolder(m)), news, t) in FreshEntries(m, names, news, t, n)
  {
    if n > 0 { FreshEntryFrom(m, names, news, t, n - 1); }
  }

  predicate EachPartyOnce(es: seq<EntryPoint>) {
    forall i, j :: 0 <= i < j < |es| ==> es[i].party != es[j].party
  }

  // No two fresh names are given the same id. Ids wrap at 256.
  predicate FreshIdsDistinct(m: Material, names: seq<Name>) {
    forall i, j :: 0 <= i < j < |names| && EntersFresh(m, names, i) && EntersFresh(m, names, j)
               ==> FreshParty(i) != FreshParty(j)
  }

  lemma {:induction false} FreshEntriesOnce(m: Material, names: seq<Name>, news: set<Party>, t: nat, n: nat)
    requires m.participants != [] && n <= |names|
    ensures EachPartyOnce(FreshEntries(m, names, news, t, n)) <==> FreshIdsDistinct(m, names[..n])
  {
    var es := FreshEntries(m, names, news, t, n);
    if n > 0 {
      var es0 := FreshEntries(m, names, news, t, n - 1);
      FreshEntriesOnce(m, names, news, t, n - 1);
      FreshEntryFrom(m, names, news, t, n - 1);
      assert forall i :: 0 <= i < n ==> EntersFresh(m, names[..n], i) == EntersFresh(m, names, i);
      assert forall i :: 0 <= i < n - 1 ==> EntersFresh(m, names[..n - 1], i) == EntersFresh(m, names, i);
      if EntersFresh(m, names, n - 1) {
        LastEntryOnce(es0, es);
        FreshIdsExtend(m, names, n);
        var last := es[|es| - 1].party;
        if i :| 0 <= i < |es0| && es0[i].party == last {
          assert es0[i] in es0;
        }
        if i :| 0 <= i < n - 1 && EntersFresh(m, names, i) && FreshParty(i) == last {
          assert EntryPoint(FreshParty(i), None, Some(RotationHolder(m)), news, t) in es0;
        }
      }
    }
  }

  lemma LastEntryOnce(es0: seq<EntryPoint>, es: seq<EntryPoint>)
    requires |es| == |es0| + 1 && es[..|es0|] == es0
    ensures EachPartyOnce(es) <==> EachPartyOnce(es0) && forall i :: 0 <= i < |es0| ==> es0[i].party != es[|es0|].party
  {
  }

  lemma FreshIdsExtend(m: Material, names: seq<Name>, n: nat)
    requires 0 < n <= |names| && EntersFresh(m, names, n - 1)
    ensures FreshIdsDistinct(m, names[..n]) <==>
              FreshIdsDistinct(m, names[..n - 1])
              && forall i :: 0 <= i < n - 1 && EntersFresh(m, names, i) ==> FreshParty(i) != FreshParty(n - 1)
  {
  }

  lemma NewHoldersAre(m: Material, names: seq<Name>, p: Party)
    ensures p in SetOf(NewParties(m.participants, names)) <==>
              exists i :: 0 <= i < |names| && NewParty(m.participants, names, i) == p
  {
  }

  // A new holder is an old participant or enters fresh.
  lemma NewHolderOrigin(m: Material, names: seq<Name>, p: Party)
    requires p !in Parties(m.participants)
    ensures p in SetOf(NewParties(m.participants, names)) <==>
              exists i :: 0 <= i < |names| && EntersFresh(m, names, i) && FreshParty(i) == p
  {
    NewHoldersAre(m, names, p);
    forall i | 0 <= i < |names| && NewParty(m.participants, names, i) == p
      ensures EntersFresh(m, names, i) && FreshParty(i) == p
    {
      assert forall k :: 0 <= k < |m.participants| ==> m.participants[k].party in Parties(m.participants);
    }
    if i :| 0 <= i < |names| && EntersFresh(m, names, i) && FreshParty(i) == p {
      assert NewParty(m.participants, names, i) == p;
    }
  }

  // What new holders are told of the old ones: the group key, the threshold of
  // the first participant's share, and all old parties.
  ghost predicate FromOldHolders(m: Material, h: NewHolder)
    requires m.participants != []
  {
    && h.verifyingKey == m.groupKey.verifyingKey && h.oldThreshold == m.participants[0].share.threshold
    && forall p :: p in h.oldHolders <==> exists k :: 0 <= k < |m.participants| && m.participants[k].party == p
  }

  // Every entry point has the role its party's memberships call for: old
  // holder exactly if it held a share, new holder exactly if it will.
  lemma EntryRoles(m: Material, names: seq<Name>, t: nat, e: EntryPoint)
    requires m.participants != [] && e in RotationEntries(m, names, t)
    ensures var news := SetOf(NewParties(m.participants, names));
            && e.newHolders == news && e.newThreshold == t
            && (e.oldHolder.Some? || e.newHolder.Some?)
            && (e.oldHolder.Some? <==> e.party in Parties(m.participants))
            && (e.newHolder.Some? <==> e.party in news)
            && (e.newHolder.Some? ==> FromOldHolders(m, e.newHolder.value))
            && (e.oldHolder.Some? ==>
                  exists p :: p in m.participants && p.party == e.party && p.share == e.oldHolder.value)
  {
    var news, n := SetOf(NewParties(m.participants, names)), |m.participants|;
    OldEntryAt(m, news, t, n, 0);
    FreshEntryFrom(m, names, news, t, |names|);
    if e in OldEntries(m, news, t, n) {
      var i :| 0 <= i < n && OldEntries(m, news, t, n)[i] == e;
      OldEntryAt(m, news, t, n, i);
      assert m.participants[i] in m.participants;
    } else {
      NewHolderOrigin(m, names, e.party);
    }
  }

  // The old participants enter first, in their order, with their shares.
  lemma OldHoldersFirst(m: Material, names: seq<Name>, t: nat, i: nat)
    requires m.participants != []
    ensures var es, n := RotationEntries(m, names, t), |m.participants|;
            && |es| >= n
            && (i < n ==> es[i].party == m.participants[i].party && es[i].oldHolder == Some(m.participants[i].share))
            && (n <= i < |es| ==> es[i].oldHolder == None)
  {
    var news, n := SetOf(NewParties(m.participants, names)), |m.participants|;
    var first, later := OldEntries(m, news, t, n), FreshEntries(m, names, news, t, |names|);
    OldEntryAt(m, news, t, n, if i < n then i else 0);
    FreshEntryFrom(m, names, news, t, |names|);
    if n <= i < n + |later| {
      assert (first + later)[i] == later[i - n];
    }
  }

  // The parties are those of the old and the new set, no more and no fewer.
  lemma EntryPartiesAre(m: Material, names: seq<Name>, t: nat, p: Party)
    requires m.participants != []
    ensures (exists e :: e in RotationEntries(m, names, t) && e.party == p) <==>
              p in Parties(m.participants) || p in SetOf(NewParties(m.participants, names))
  {
    var news, n := SetOf(NewParties(m.participants, names)), |m.participants|;
    FreshEntryFrom(m, names, news, t, |names|);
    if p in Parties(m.participants) {
      var i :| 0 <= i < n && m.participants[i].party == p;
      OldEntryAt(m, news, t, n, i);
      assert OldEntries(m, news, t, n)[i] in RotationEntries(m, names, t);
    } else {
      NewHolderOrigin(m, names, p);
      if p in news {
        var i :| 0 <= i < |names| && EntersFresh(m, names, i) && FreshParty(i) == p;
        assert EntryPoint(p, None, Some(RotationHolder(m)), news, t) in RotationEntries(m, names, t);
      }
    }
    if e :| e in RotationEntries(m, names, t) && e.party == p {
      EntryRoles(m, names, t, e);
    }
  }

  // With at most 256 names, fresh ids cannot collide.
  lemma FewFreshIdsDistinct(m: Material, names: seq<Name>)
    requires |names| <= 256
    ensures FreshIdsDistinct(m, names)
  {
  }

  // Each of them enters exactly once if and only if no two fresh ids collide.
  lemma EntryPartiesOnce(m: Material, names: seq<Name>, t: nat)
    requires m.participants != [] && DistinctParties(m.participants)
    ensures EachPartyOnce(RotationEntries(m, names, t)) <==> FreshIdsDistinct(m, names)
  {
    var news := SetOf(NewParties(m.participants, names));
    var a := OldEntries(m, news, t, |m.participants|);
    var b := FreshEntries(m, names, news, t, |names|);
    OldEntriesOnce(m, news, t);
    FreshEntriesOnce(m, names, news, t, |names|);
    assert names[..|names|] == names;
    forall j | 0 <= j < |b| ensures b[j].party !in Parties(m.participants) {
      FreshEntryFrom(m, names, news, t, |names|);
      assert b[j] in b;
    }
    OnceInBoth(a, b);
  }

  lemma OldEntriesOnce(m: Material, news: set<Party>, t: nat)
    requires m.participants != [] && DistinctParties(m.participants)
    ensures var a := OldEntries(m, news, t, |m.participants|);
            EachPartyOnce(a) && forall i :: 0 <= i < |a| ==> a[i].party in Parties(m.participants)
  {
    var n := |m.participants|;
    var a := OldEntries(m, news, t, n);
    OldEntryAt(m, news, t, n, 0);
    forall i | 0 <= i < n ensures a[i].party == m.participants[i].party {
      OldEntryAt(m, news, t, n, i);
    }
    assert forall i :: 0 <= i < n ==> m.participants[i] in m.participants;
  }

  lemma OnceInBoth(a: seq<EntryPoint>, b: seq<EntryPoint>)
    requires forall i, j :: 0 <= i < |a| && 0 <= j < |b| ==> a[i].party != b[j].party
    ensures EachPartyOnce(a + b) <==> EachPartyOnce(a) && EachPartyOnce(b)
  {
    var c := a + b;
    if EachPartyOnce(c) {
      forall i, j | 0 <= i < j < |b| ensures b[i].party != b[j].party {
        assert c[|a| + i] == b[i] && c[|a| + j] == b[j];
      }
      forall i, j | 0 <= i < j < |a| ensures a[i].party != a[j].party {
        assert c[i] == a[i] && c[j] == a[j];
      }
    }
  }

  // ----- What a rotation leaves behind

  // No two names yield the same party: those that resolve do so to positions of
  // different parties, and a fresh id is no other name's party.
  predicate NamesApart(olds: seq<Participant>, names: seq<Name>) {
    forall i, j :: 0 <= i < j < |names| ==> TwoApart(olds, names, i, j)
  }

  predicate TwoApart(olds: seq<Participant>, names: seq<Name>, i: nat, j: nat)
    requires i < j < |names|
  {
    match (Resolve(names[i], |olds|), Resolve(names[j], |olds|))
    case (Some(a), Some(b)) => olds[a].party != olds[b].party
    case (Some(a), None) => olds[a].party != FreshParty(j)
    case (None, Some(b)) => FreshParty(i) != olds[b].party
    case (None, None) => (j - i) % 256 != 0
  }

  lemma FreshCollision(i: nat, j: nat)
    requires i < j
    ensures FreshParty(i) == FreshParty(j) <==> (j - i) % 256 == 0
  {
  }

  lemma RotationParties(m: Material, names: seq<Name>, t: nat, o: Oracle, address: Key -> Bytes)
    requires m.participants != [] && DoRotation(m, names, t, o, address).Ok?
    ensures var m' := DoRotation(m, names, t, o, address).value;
            PartySeq(m'.participants) == NewParties(m.participants, names) && m'.threshold == t
  {
    var m', ps := DoRotation(m, names, t, o, address).value, NewParties(m.participants, names);
    assert |m'.participants| == |names|;
    assert forall i :: 0 <= i < |names| ==> m'.participants[i].party == ps[i];
  }

  // Success keeps the group key and yields material of the requested size and
  // threshold with positions counted from zero; its parties are pairwise
  // distinct exactly when the names are apart, and the share of the least
  // party, the only one checked, is under the group key.
  lemma RotationResult(m: Material, names: seq<Name>, t: nat, o: Oracle, address: Key -> Bytes)
    requires m.participants != [] && DoRotation(m, names, t, o, address).Ok?
    ensures var m' := DoRotation(m, names, t, o, address).value;
            && m'.groupKey == GroupPublicKey(m.groupKey.verifyingKey, address(m.groupKey.verifyingKey))
            && m'.threshold == t <= m'.total == |names| == |m'.participants| && 0 < m'.total
            && (|names| <= 256 ==> forall i :: 0 <= i < |names| ==> m'.participants[i].index == i)
            && (DistinctParties(m'.participants) <==> NamesApart(m.participants, names))
            && forall i :: 0 <= i < |names| && IsLeast(m'.participants, i) ==>
                 m'.participants[i].share.verifyingKey == Some(m.groupKey.verifyingKey)
  {
    RotationShape(m, names, t, o, address);
    RotationApart(m, names, t, o, address);
    LeastShareChecked(m, names, t, o, address);
  }

  lemma RotationShape(m: Material, names: seq<Name>, t: nat, o: Oracle, address: Key -> Bytes)
    requires m.participants != [] && DoRotation(m, names, t, o, address).Ok?
    ensures var m' := DoRotation(m, names, t, o, address).value;
            && m'.groupKey == GroupPublicKey(m.groupKey.verifyingKey, address(m.groupKey.verifyingKey))
            && m'.threshold == t <= m'.total == |names| == |m'.participants| && 0 < m'.total
            && (|names| <= 256 ==> forall i :: 0 <= i < |names| ==> m'.participants[i].index == i)
  {
  }

  lemma RotationApart(m: Material, names: seq<Name>, t: nat, o: Oracle, address: Key -> Bytes)
    requires m.participants != [] && DoRotation(m, names, t, o, address).Ok?
    ensures DistinctParties(DoRotation(m, names, t, o, address).value.participants) <==>
              NamesApart(m.participants, names)
  {
    NewPartiesApart(m.participants, names);
    RotationParties(m, names, t, o, address);
    PartiesAlike(DoRotation(m, names, t, o, address).value.participants, NewParties(m.participants, names));
  }

  lemma PartiesAlike(ps: seq<Participant>, parties: seq<Party>)
    requires PartySeq(ps) == parties
    ensures DistinctParties(ps) <==> forall i, j :: 0 <= i < j < |parties| ==> parties[i] != parties[j]
  {
    assert |ps| == |parties| && forall i :: 0 <= i < |ps| ==> ps[i].party == parties[i];
  }

  predicate IsLeast(ps: seq<Participant>, i: nat)
    requires i < |ps|
  {
    forall j :: 0 <= j < |ps| ==> ps[i].party <= ps[j].party
  }

  lemma LeastShareChecked(m: Material, names: seq<Name>, t: nat, o: Oracle, address: Key -> Bytes)
    requires m.participants != [] && DoRotation(m, names, t, o, address).Ok?
    ensures var ps := DoRotation(m, names, t, o, address).value.participants;
            forall i :: 0 <= i < |ps| && IsLeast(ps, i) ==> ps[i].share.verifyingKey == Some(m.groupKey.verifyingKey)
  {
    var ps, parties := DoRotation(m, names, t, o, address).value.participants, NewParties(m.participants, names);
    RotationParties(m, names, t, o, address);
    assert |ps| == |parties| && forall i :: 0 <= i < |ps| ==> ps[i].party == parties[i] == PartySeq(ps)[i];
    var least := MinParty(SetOf(parties));
    forall i | 0 <= i < |ps| && IsLeast(ps, i) ensures ps[i].party == least {
      assert parties[i] in SetOf(parties);
      var j :| 0 <= j < |parties| && parties[j] == least;
      assert ps[i].party <= ps[j].party;
    }
  }

  lemma NewPartiesApart(olds: seq<Participant>, names: seq<Name>)
    ensures var ps := NewParties(olds, names);
            (forall i, j :: 0 <= i < j < |ps| ==> ps[i] != ps[j]) <==> NamesApart(olds, names)
  {
    var ps := NewParties(olds, names);
    forall i, j | 0 <= i < j < |names|
      ensures ps[i] != ps[j] <==> TwoApart(olds, names, i, j)
    {
      FreshCollision(i, j);
      assert ps[i] == NewParty(olds, names, i) && ps[j] == NewParty(olds, names, j);
    }
  }

  // At place i the names a and b denote one party: they resolve to positions of
  // the same party, both get the fresh id of that place, or one resolves to a
  // position whose party has that id.
  predicate SameHolder(olds: seq<Participant>, a: Name, b: Name, i: nat) {
    match (Resolve(a, |olds|), Resolve(b, |olds|))
    case (Some(x), Some(y)) => olds[x].party == olds[y].party
    case (Some(x), None) => olds[x].party == FreshParty(i)
    case (None, Some(y)) => olds[y].party == FreshParty(i)
    case (None, None) => true
  }

  predicate SameHolders(olds: seq<Participant>, names: seq<Name>, names': seq<Name>) {
    |names| == |names'| && forall i :: 0 <= i < |names| ==> SameHolder(olds, names[i], names'[i], i)
  }

  lemma SameHoldersExactly(olds: seq<Participant>, names: seq<Name>, names': seq<Name>)
    ensures NewParties(olds, names) == NewParties(olds, names') <==> SameHolders(olds, names, names')
  {
    var ps, ps' := NewParties(olds, names), NewParties(olds, names');
    if |names| == |names'| {
      forall i | 0 <= i < |names|
        ensures ps[i] == ps'[i] <==> SameHolder(olds, names[i], names'[i], i)
      {
        assert ps[i] == NewParty(olds, names, i) && ps'[i] == NewParty(olds, names', i);
      }
    } else {
      assert |ps| != |ps'|;
    }
  }

  // Distinct names need not be apart: "A" and "P0" are both position 0.
  lemma AliasesCollide(olds: seq<Participant>)
    requires olds != []
    ensures DistinctNames([Alias(0), PositionName(0)]) && !NamesApart(olds, [Alias(0), PositionName(0)])
  {
    var names := [Alias(0), PositionName(0)];
    NameTableMeaning(|olds|, names[0], 0);
    NameTableMeaning(|olds|, names[1], 0);
    assert !TwoApart(olds, names, 0, 1);
    assert Resolve(names[0], |olds|) == Some(0) && Resolve(names[1], |olds|) == Some(0);
    assert |PositionName(0)| == 2;
  }

  // Each participant enters a refresh with its own share as old holder and as
  // new holder of the same set and threshold.
  lemma {:induction false} RefreshRoles(m: Material, n: nat, i: nat)
    requires m.participants != [] && i < n <= |m.participants|
    ensures |RefreshEntries(m, n)| == n
    ensures var e, p := RefreshEntries(m, n)[i], m.participants[i];
            && e.party == p.party && e.oldHolder == Some(p.share) && e.newThreshold == m.threshold
            && e.newHolder.Some? && FromOldHolders(m, e.newHolder.value)
            && forall q :: q in e.newHolders <==> exists k :: 0 <= k < |m.participants| && m.participants[k].party == q
  {
    if n > 1 {
      RefreshRoles(m, n - 1, if i < n - 1 then i else 0);
    }
  }

  // Auxiliary data is generated by each party for the whole set.
  lemma AuxRoles(parties: seq<Party>, ids: set<Party>, i: nat)
    requires i < |parties|
    ensures |AuxEntries(parties, ids)| == |parties|
    ensures AuxEntries(parties, ids)[i].party == parties[i] && AuxEntries(parties, ids)[i].ids == ids
  {
  }

  // The runs of a refresh.
  function RefreshRun(m: Material, o: Oracle): Option<Party -> Option<ThresholdShare>>
    requires m.participants != []
  {
    o.reshare(RefreshEntries(m, |m.participants|))
  }

  function RefreshAux(m: Material, o: Oracle): Option<Party -> nat> {
    o.auxGen(AuxEntries(PartySeq(m.participants), Parties(m.participants)))
  }

  // A refresh succeeds exactly when both runs do and every party gets a share
  // under the group key; any failure is reported as a failed refresh.
  lemma RefreshSucceedsExactly(m: Material, o: Oracle, address: Key -> Bytes)
    requires m.participants != []
    ensures DoRefresh(m, o, address).Ok? <==>
              && RefreshRun(m, o).Some? && RefreshAux(m, o).Some?
              && forall i :: 0 <= i < |m.participants| ==>
                   var share := RefreshRun(m, o).value(m.participants[i].party);
                   share.Some? && share.value.verifyingKey == Some(m.groupKey.verifyingKey)
    ensures DoRefresh(m, o, address).Err? ==> DoRefresh(m, o, address) == Err(RefreshFailed)
  {
  }

  // It keeps the parties in their order, the group key and the threshold, and
  // gives each party the share and the auxiliary data the runs returned for it.
  lemma RefreshResult(m: Material, o: Oracle, address: Key -> Bytes)
    requires m.participants != [] && DoRefresh(m, o, address).Ok?
    ensures RefreshRun(m, o).Some? && RefreshAux(m, o).Some?
    ensures var m' := DoRefresh(m, o, address).value;
            && m'.groupKey == GroupPublicKey(m.groupKey.verifyingKey, address(m.groupKey.verifyingKey))
            && m'.threshold == m.threshold && m'.total == m.total && |m'.participants| == |m.participants|
            && forall i :: 0 <= i < |m.participants| ==>
                 var old', new' := m.participants[i], m'.participants[i];
                 && new'.index == old'.index && new'.party == old'.party
                 && RefreshRun(m, o).value(old'.party) == Some(new'.share)
                 && RefreshAux(m, o).value(old'.party) == new'.aux
                 && new'.share.verifyingKey == Some(m.groupKey.verifyingKey)
  {
  }

  // The runs of a rotation.
  function RotationRun(m: Material, names: seq<Name>, t: nat, o: Oracle): Option<Party -> Option<ThresholdShare>>
    requires m.participants != []
  {
    o.reshare(RotationEntries(m, names, t))
  }

  function RotationAux(m: Material, names: seq<Name>, o: Oracle): Option<Party -> nat> {
    var parties := NewParties(m.participants, names);
    o.auxGen(AuxEntries(parties, SetOf(parties)))
  }

  // A rotation succeeds exactly when the sizes fit, both runs succeed, every new
  // party gets a share and that of the least is under the group key.
  lemma RotationSucceedsExactly(m: Material, names: seq<Name>, t: nat, o: Oracle, address: Key -> Bytes)
    requires m.participants != []
    ensures var parties := NewParties(m.participants, names);
            var r := DoRotation(m, names, t, o, address);
            && (r == Err(InvalidThreshold) <==> t > |names|)
            && (r == Err(InvalidParticipantSet) <==> t == |names| == 0)
            && (r.Ok? <==>
                  && t <= |names| && names != []
                  && RotationRun(m, names, t, o).Some? && RotationAux(m, names, o).Some?
                  && (forall i :: 0 <= i < |names| ==> RotationRun(m, names, t, o).value(parties[i]).Some?)
                  && forall i :: 0 <= i < |names| && LeastParty(parties, parties[i]) ==>
                       RotationRun(m, names, t, o).value(parties[i]).value.verifyingKey
                         == Some(m.groupKey.verifyingKey))
            && (r.Err? ==> r.error in {InvalidThreshold, InvalidParticipantSet, RotationFailed})
  {
    if names != [] {
      MinIsLeast(NewParties(m.participants, names));
    }
  }

  // Each new party gets the share and the auxiliary data the runs returned for it.
  lemma RotationHands(m: Material, names: seq<Name>, t: nat, o: Oracle, address: Key -> Bytes, i: nat)
    requires m.participants != [] && i < |names| && DoRotation(m, names, t, o, address).Ok?
    ensures RotationRun(m, names, t, o).Some? && RotationAux(m, names, o).Some?
    ensures |DoRotation(m, names, t, o, address).value.participants| == |names|
    ensures var p := DoRotation(m, names, t, o, address).value.participants[i];
            && p.party == NewParty(m.participants, names, i) && p.index == i % 256
            && RotationRun(m, names, t, o).value(p.party) == Some(p.share)
            && RotationAux(m, names, o).value(p.party) == p.aux
  {
  }

  // An old party holds a share after a rotation exactly when a name resolves to
  // a position of it or a name that resolves to none is given its number.
  lemma KeepsShareExactly(m: Material, names: seq<Name>, t: nat, o: Oracle, address: Key -> Bytes, k: nat)
    requires k < |m.participants| && DoRotation(m, names, t, o, address).Ok?
    ensures m.participants[k].party in Parties(DoRotation(m, names, t, o, address).value.participants) <==>
              exists i :: 0 <= i < |names| && HandsShareTo(m.participants, names, i, k)
  {
    var olds, ps := m.participants, DoRotation(m, names, t, o, address).value.participants;
    var parties := NewParties(olds, names);
    RotationParties(m, names, t, o, address);
    assert |ps| == |names| && forall i :: 0 <= i < |ps| ==> ps[i].party == parties[i] == PartySeq(ps)[i];
    forall i | 0 <= i < |names|
      ensures parties[i] == olds[k].party <==> HandsShareTo(olds, names, i, k)
    {
      assert parties[i] == NewParty(olds, names, i);
    }
    if i :| 0 <= i < |names| && HandsShareTo(olds, names, i, k) {
      assert ps[i] in ps;
    }
  }

  predicate HandsShareTo(olds: seq<Participant>, names: seq<Name>, i: nat, k: nat)
    requires i < |names| && k < |olds|
  {
    match Resolve(names[i], |olds|)
    case Some(j) => olds[j].party == olds[k].party
    case None => FreshParty(i) == olds[k].party
  }

  // ----- Which shares a success vouches for

  // Runs that all succeed, with a share under the given key for each party.
  function Willing(keys: Party -> Key): Oracle {
    Oracle(_ => Some((p: Party) => Some(ThresholdShare(Some(keys(p)), 2, 0))), _ => Some(_ => 0))
  }

  // One key for the party, another for everyone else.
  function KeyFor(party: Party, key: Key, others: Key): Party -> Key {
    p => if p == party then key else others
  }

  predicate LeastParty(parties: seq<Party>, p: Party) {
    p in parties && forall j :: 0 <= j < |parties| ==> p <= parties[j]
  }

  lemma MinIsLeast(parties: seq<Party>)
    requires parties != []
    ensures SetOf(parties) != {}
    ensures forall p: Party :: LeastParty(parties, p) <==> p == MinParty(SetOf(parties))
  {
    assert parties[0] in SetOf(parties);
    var least := MinParty(SetOf(parties));
    forall j | 0 <= j < |parties| ensures least <= parties[j] {
      assert parties[j] in SetOf(parties);
    }
    assert LeastParty(parties, least);
  }

  // Rotation asks no more of willing runs than the key of the least party.
  lemma WillingRotates(m: Material, names: seq<Name>, t: nat, keys: Party -> Key, address: Key -> Bytes)
    requires m.participants != [] && t <= |names| && names != []
    requires forall p :: LeastParty(NewParties(m.participants, names), p) ==> keys(p) == m.groupKey.verifyingKey
    ensures var r, parties := DoRotation(m, names, t, Willing(keys), address), NewParties(m.participants, names);
            && r.Ok? && r.value.threshold == t && |r.value.participants| == |names|
            && r.value.groupKey == GroupPublicKey(m.groupKey.verifyingKey, address(m.groupKey.verifyingKey))
            && forall i :: 0 <= i < |names| ==>
                 r.value.participants[i].party == parties[i]
                 && r.value.participants[i].share.verifyingKey == Some(keys(parties[i]))
  {
    var parties := NewParties(m.participants, names);
    MinIsLeast(parties);
  }

  // Whatever the runs return, the share at place i is under the group key.
  ghost predicate ShareVouched(m: Material, names: seq<Name>, t: nat, address: Key -> Bytes, i: nat)
    requires m.participants != [] && i < |names|
  {
    forall o :: DoRotation(m, names, t, o, address).Ok? ==> ShareUnderKey(m, names, t, o, address, i)
  }

  predicate ShareUnderKey(m: Material, names: seq<Name>, t: nat, o: Oracle, address: Key -> Bytes, i: nat)
    requires m.participants != [] && i < |names| && DoRotation(m, names, t, o, address).Ok?
  {
    DoRotation(m, names, t, o, address).value.participants[i].share.verifyingKey == Some(m.groupKey.verifyingKey)
  }

  // A successful rotation vouches for a share exactly when its party is the
  // least of the new ones.
  lemma ShareVouchedExactly(m: Material, names: seq<Name>, t: nat, address: Key -> Bytes, i: nat, other: Key)
    requires m.participants != [] && t <= |names| && i < |names| && other != m.groupKey.verifyingKey
    ensures ShareVouched(m, names, t, address, i) <==>
              LeastParty(NewParties(m.participants, names), NewParties(m.participants, names)[i])
  {
    var parties, key := NewParties(m.participants, names), m.groupKey.verifyingKey;
    if LeastParty(parties, parties[i]) {
      forall o | DoRotation(m, names, t, o, address).Ok? ensures ShareUnderKey(m, names, t, o, address, i) {
        LeastUnderKey(m, names, t, o, address, i);
      }
    } else {
      MinIsLeast(parties);
      var keys := KeyFor(MinParty(SetOf(parties)), key, other);
      var o := Willing(keys);
      WillingRotates(m, names, t, keys, address);
      assert !ShareUnderKey(m, names, t, o, address, i);
    }
  }

  lemma LeastUnderKey(m: Material, names: seq<Name>, t: nat, o: Oracle, address: Key -> Bytes, i: nat)
    requires m.participants != [] && i < |names| && DoRotation(m, names, t, o, address).Ok?
    requires LeastParty(NewParties(m.participants, names), NewParties(m.participants, names)[i])
    ensures ShareUnderKey(m, names, t, o, address, i)
  {
    var ps := DoRotation(m, names, t, o, address).value.participants;
    RotationParties(m, names, t, o, address);
    LeastShareChecked(m, names, t, o, address);
    var parties := NewParties(m.participants, names);
    assert |ps| == |parties| && forall j :: 0 <= j < |ps| ==> ps[j].party == parties[j] == PartySeq(ps)[j];
    assert IsLeast(ps, i);
  }

  // So it vouches for all of them exactly when all names yield one party.
  lemma AllVouchedExactly(m: Material, names: seq<Name>, t: nat, address: Key -> Bytes, other: Key)
    requires m.participants != [] && t <= |names| && names != [] && other != m.groupKey.verifyingKey
    ensures (forall i :: 0 <= i < |names| ==> ShareVouched(m, names, t, address, i)) <==>
              forall i, j :: 0 <= i < j < |names| ==>
                NewParty(m.participants, names, i) == NewParty(m.participants, names, j)
  {
    var parties := NewParties(m.participants, names);
    forall i | 0 <= i < |names|
      ensures ShareVouched(m, names, t, address, i) <==> LeastParty(parties, parties[i])
    {
      ShareVouchedExactly(m, names, t, address, i, other);
    }
    assert forall i :: 0 <= i < |names| ==> parties[i] == NewParty(m.participants, names, i) && parties[i] in parties;
  }
}
