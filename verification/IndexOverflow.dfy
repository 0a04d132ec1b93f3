/**
 A run of registrations that puts the relying-party index out: the count of a party is one
 byte, and the table has room for one credential more than that can say.
 */
module IndexOverflow {
  import opened Basics
  import opened CredentialRecords
  import opened CredentialTable

  /** Sealed credentials of `rp`, each for a user of its own and with a public key. */
  ghost predicate DistinctUsers(keys: Keys, keyOf: KeyOf, rp: Bytes, forms: seq<Bytes>) {
    |rp| == RP_HASH_LEN && |forms| == MAX_RESIDENT &&
    (forall i :: 0 <= i < |forms| ==> Usable(keys, keyOf, rp, forms[i])) &&
    (forall i, j :: 0 <= i < j < |forms| ==>
       keys.open(forms[i], rp).value.userId != keys.open(forms[j], rp).value.userId)
  }

  predicate Usable(keys: Keys, keyOf: KeyOf, rp: Bytes, sealed: Bytes) {
    keys.open(sealed, rp).Some? && keyOf(keys.derive(sealed), keys.open(sealed, rp).value.curve) != []
  }

  function AllFree(): seq<bool> {
    seq(MAX_RESIDENT, _ => true)
  }

  function Registration(keys: Keys, rp: Bytes, sealed: Bytes): Event
    requires keys.open(sealed, rp).Some?
  {
    MakeCredential(rp, keys.open(sealed, rp).value, sealed, AllFree(), true, true)
  }

  /** The first `n` users register, one after the other. */
  ghost function Registrations(keys: Keys, keyOf: KeyOf, rp: Bytes, forms: seq<Bytes>, n: nat): (events: seq<Event>)
    requires DistinctUsers(keys, keyOf, rp, forms) && n <= MAX_RESIDENT
    ensures |events| == n
    ensures forall i :: 0 <= i < n ==>
      events[i].MakeCredential? && events[i].rp == rp && events[i].creatable == AllFree()
  {
    if n == 0 then []
    else Registrations(keys, keyOf, rp, forms, n - 1) + [Registration(keys, rp, forms[n - 1])]
  }

  function Member(keys: Keys, keyOf: KeyOf, rp: Bytes, sealed: Bytes): Option<Record>
    requires keys.open(sealed, rp).Some?
  {
    var publicKey := keyOf(keys.derive(sealed), keys.open(sealed, rp).value.curve);
    Some(Container(rp, keys.derive(sealed), sealed, Some(publicKey)))
  }

  /** The table after the first `n` registrations. */
  ghost function Party(keys: Keys, keyOf: KeyOf, rp: Bytes, forms: seq<Bytes>, n: nat): (t: Table)
    requires DistinctUsers(keys, keyOf, rp, forms) && n < BYTE_SPAN
    ensures Shaped(t)
  {
    Table(
      seq(MAX_RESIDENT, i requires 0 <= i < MAX_RESIDENT => if i < n then Member(keys, keyOf, rp, forms[i]) else None),
      seq(MAX_RESIDENT, j => if j == 0 && n > 0 then Some(RpRecord(n, rp, true)) else None))
  }

  lemma MemberIs(keys: Keys, keyOf: KeyOf, rp: Bytes, sealed: Bytes, userId: Bytes)
    requires |rp| == RP_HASH_LEN && keys.open(sealed, rp).Some?
    ensures Belongs(Member(keys, keyOf, rp, sealed), rp)
    ensures SameUser(keys, Member(keys, keyOf, rp, sealed), rp, userId) <==>
      keys.open(sealed, rp).value.userId == userId
    ensures !SameUser(keys, None, rp, userId) && !Belongs(None, rp)
  {
  }

  lemma {:induction false} PrefixTally(creds: seq<Option<Record>>, rp: Bytes, n: nat)
    requires n <= |creds|
    requires forall i :: 0 <= i < |creds| ==> (Belongs(creds[i], rp) <==> i < n)
    ensures Tally(creds, rp) == n
    decreases |creds|
  {
    if creds != [] {
      PrefixTally(creds[..|creds| - 1], rp, if n == |creds| then n - 1 else n);
    }
  }

  lemma PartyTally(keys: Keys, keyOf: KeyOf, rp: Bytes, forms: seq<Bytes>, n: nat)
    requires DistinctUsers(keys, keyOf, rp, forms) && n < BYTE_SPAN
    ensures Tally(Party(keys, keyOf, rp, forms, n).creds, rp) == n
  {
    hide Belongs, Member;
    var creds := Party(keys, keyOf, rp, forms, n).creds;
    forall i | 0 <= i < |creds| ensures Belongs(creds[i], rp) <==> i < n {
      MemberIs(keys, keyOf, rp, forms[i], []);
    }
    PrefixTally(creds, rp, n);
  }

  /** The searches of the next registration: no such user yet, the next slot free, the party's record in place 0. */
  lemma NextSearches(keys: Keys, keyOf: KeyOf, rp: Bytes, forms: seq<Bytes>, n: nat)
    requires DistinctUsers(keys, keyOf, rp, forms) && n < BYTE_SPAN
    ensures var t := Party(keys, keyOf, rp, forms, n);
            var userId := keys.open(forms[n], rp).value.userId;
            FirstMarked(UserMarks(keys, t.creds, rp, userId), 0) == None &&
            FirstMarked(FreeMarks(t.creds, AllFree()), 0) == Some(n) &&
            FirstMarked(RpMarks(t.rps, rp), 0) == (if n > 0 then Some(0) else None) &&
            (n == 0 ==> FirstMarked(EmptyMarks(t.rps), 0) == Some(0))
  {
    hide FirstMarked, Member, SameUser;
    var t := Party(keys, keyOf, rp, forms, n);
    var userId := keys.open(forms[n], rp).value.userId;
    var users := UserMarks(keys, t.creds, rp, userId);
    var free := FreeMarks(t.creds, AllFree());
    forall i | 0 <= i < MAX_RESIDENT ensures !users[i] && (free[i] <==> i >= n) {
      MemberIs(keys, keyOf, rp, forms[i], userId);
      NotEmpty(keys, keyOf, rp, forms[i]);
    }
    FirstMarkedIs(users, 0);
    LeastMarked(free, n);
    var known, empty := RpMarks(t.rps, rp), EmptyMarks(t.rps);
    FirstMarkedIs(known, 0);
    if n > 0 {
      LeastMarked(known, 0);
    } else {
      LeastMarked(empty, 0);
    }
  }

  lemma NotEmpty(keys: Keys, keyOf: KeyOf, rp: Bytes, sealed: Bytes)
    requires keys.open(sealed, rp).Some?
    ensures Member(keys, keyOf, rp, sealed).Some?
  {
  }

  lemma LeastMarked(marks: seq<bool>, r: nat)
    requires r < |marks| && marks[r] && forall i :: 0 <= i < r ==> !marks[i]
    ensures FirstMarked(marks, 0) == Some(r)
  {
    FirstMarkedIs(marks, 0);
  }

  lemma RegistrationAdds(keys: Keys, keyOf: KeyOf, rp: Bytes, forms: seq<Bytes>, n: nat)
    requires DistinctUsers(keys, keyOf, rp, forms) && n < BYTE_SPAN
    ensures var t := Party(keys, keyOf, rp, forms, n);
            var e := Registration(keys, rp, forms[n]);
            Adds(keys, t, rp, forms[n], keyOf(keys.derive(forms[n]), e.cred.curve), AllFree(), true) &&
            (Enabled(keys, keyOf, t, e) <==> n < BYTE_SPAN - 1)
  {
    hide FirstMarked, Member, SameUser, Tally;
    var t := Party(keys, keyOf, rp, forms, n);
    var userId := keys.open(forms[n], rp).value.userId;
    NextSearches(keys, keyOf, rp, forms, n);
    SearchesAre(keys, t, rp, userId, AllFree());
    PartyTally(keys, keyOf, rp, forms, n);
  }

  /** Below the end of the count, one registration leads to the next table. */
  lemma RegistrationSteps(keys: Keys, keyOf: KeyOf, rp: Bytes, forms: seq<Bytes>, n: nat)
    requires DistinctUsers(keys, keyOf, rp, forms) && n + 1 < BYTE_SPAN
    ensures Perform(keys, keyOf, Party(keys, keyOf, rp, forms, n), Registration(keys, rp, forms[n])).table ==
            Party(keys, keyOf, rp, forms, n + 1)
  {
    hide FirstMarked, SameUser;
    NextSearches(keys, keyOf, rp, forms, n);
    var t := Party(keys, keyOf, rp, forms, n);
    var after := Perform(keys, keyOf, t, Registration(keys, rp, forms[n])).table;
    assert Usable(keys, keyOf, rp, forms[n]);
    assert after.creds == Party(keys, keyOf, rp, forms, n + 1).creds;
    assert after.rps == Party(keys, keyOf, rp, forms, n + 1).rps;
  }

  lemma {:induction false} RegistrationsRun(keys: Keys, keyOf: KeyOf, rp: Bytes, forms: seq<Bytes>, n: nat)
    requires DistinctUsers(keys, keyOf, rp, forms) && n < BYTE_SPAN
    ensures var events := Registrations(keys, keyOf, rp, forms, n);
            Run(keys, keyOf, Party(keys, keyOf, rp, forms, 0), events) &&
            Play(keys, keyOf, Party(keys, keyOf, rp, forms, 0), events) == Party(keys, keyOf, rp, forms, n)
    decreases n
  {
    hide Perform, Party, DistinctUsers, Enabled;
    if n > 0 {
      var events := Registrations(keys, keyOf, rp, forms, n);
      assert events[..n - 1] == Registrations(keys, keyOf, rp, forms, n - 1);
      RegistrationsRun(keys, keyOf, rp, forms, n - 1);
      RegistrationAdds(keys, keyOf, rp, forms, n - 1);
      RegistrationSteps(keys, keyOf, rp, forms, n - 1);
    }
  }

  lemma EmptyKept(keys: Keys, keyOf: KeyOf, rp: Bytes, forms: seq<Bytes>)
    requires DistinctUsers(keys, keyOf, rp, forms)
    ensures TableKept(keys, keyOf, Party(keys, keyOf, rp, forms, 0))
    ensures forall i :: 0 <= i < MAX_RESIDENT ==>
      Party(keys, keyOf, rp, forms, 0).creds[i].None? && Party(keys, keyOf, rp, forms, 0).rps[i].None?
  {
  }

  /**
   From an empty table, 255 users of one relying party register and leave everything in order;
   the 256th registers as well, and that puts the index out.
   */
  lemma FullPartyOutgrows(keys: Keys, keyOf: KeyOf, rp: Bytes, forms: seq<Bytes>)
    requires DistinctUsers(keys, keyOf, rp, forms)
    ensures var empty := Party(keys, keyOf, rp, forms, 0);
            var events := Registrations(keys, keyOf, rp, forms, BYTE_SPAN - 1);
            var t := Play(keys, keyOf, empty, events);
            var last := Perform(keys, keyOf, t, Registration(keys, rp, forms[BYTE_SPAN - 1]));
            (forall i :: 0 <= i < MAX_RESIDENT ==> empty.creds[i].None? && empty.rps[i].None?) &&
            Run(keys, keyOf, empty, events) && IndexAgrees(t) && Tally(t.creds, rp) == BYTE_SPAN - 1 &&
            last.status == Ok && !IndexAgrees(last.table)
  {
    hide Party, DistinctUsers, Member, Store, FirstMarked, Tally, RecordsKept, CountsRight, EveryOneEntered,
      OneEntryEach;
    var n: nat := BYTE_SPAN - 1;
    var t := Party(keys, keyOf, rp, forms, n);
    var events := Registrations(keys, keyOf, rp, forms, n);
    EmptyKept(keys, keyOf, rp, forms);
    RegistrationsRun(keys, keyOf, rp, forms, n);
    RunKeeps(keys, keyOf, Party(keys, keyOf, rp, forms, 0), events);
    PartyTally(keys, keyOf, rp, forms, n);
    RegistrationAdds(keys, keyOf, rp, forms, n);
    LastIsStored(keys, keyOf, rp, forms);
  }

  lemma LastIsStored(keys: Keys, keyOf: KeyOf, rp: Bytes, forms: seq<Bytes>)
    requires DistinctUsers(keys, keyOf, rp, forms) && IndexAgrees(Party(keys, keyOf, rp, forms, BYTE_SPAN - 1))
    ensures var t := Party(keys, keyOf, rp, forms, BYTE_SPAN - 1);
            var last := Perform(keys, keyOf, t, Registration(keys, rp, forms[BYTE_SPAN - 1]));
            last.status == Ok && !IndexAgrees(last.table)
  {
    hide FirstMarked, Member, SameUser, Tally, IndexAgrees;
    var n: nat := BYTE_SPAN - 1;
    var t := Party(keys, keyOf, rp, forms, n);
    var e := Registration(keys, rp, forms[n]);
    NextSearches(keys, keyOf, rp, forms, n);
    PartyTally(keys, keyOf, rp, forms, n);
    RegistrationAdds(keys, keyOf, rp, forms, n);
    StoreKeepsIndexIff(keys, t, rp, e.sealed, keyOf(keys.derive(e.sealed), e.cred.curve), AllFree(), true, true);
  }
}
