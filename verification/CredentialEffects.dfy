/**
 What storing, updating and deleting a resident credential do to the table: when they succeed,
 which one slot they change, what is in it afterwards, and that nothing else ever loses a credential.
 */
module CredentialEffects {
  import opened Basics
  import opened CredentialRecords
  import opened CredentialTable

  // ---------- Slots and what they hold ----------

  /** The slot holds this credential for `rp`, in this sealed form and under this resident ID. */
  predicate Holds(keys: Keys, slot: Option<Record>, rp: Bytes, cred: Cred, sealed: Bytes, id: Bytes) {
    Belongs(slot, rp) && ResidentIdOf(keys, slot.value) == Some(id) &&
    Load(keys, slot.value, rp) == Some(Loaded(cred, sealed, Some(id)))
  }

  /** No other slot than `i` is different. */
  predicate ChangesOnly(before: seq<Option<Record>>, after: seq<Option<Record>>, i: nat) {
    i < |before| == |after| && forall k :: 0 <= k < |before| && k != i ==> after[k] == before[k]
  }

  predicate Registered(keys: Keys, creds: seq<Option<Record>>, rp: Bytes, userId: Bytes) {
    exists i :: 0 <= i < |creds| && SameUser(keys, creds[i], rp, userId)
  }

  predicate HasRoom(creds: seq<Option<Record>>, creatable: seq<bool>)
    requires |creatable| == |creds|
  {
    exists i :: 0 <= i < |creds| && creds[i].None? && creatable[i]
  }

  /** `i` is the first credential of the user, or, where the user has none, the first slot one can be created in. */
  predicate Chosen(keys: Keys, creds: seq<Option<Record>>, rp: Bytes, userId: Bytes, creatable: seq<bool>, i: nat)
    requires |creatable| == |creds|
  {
    i < |creds| &&
    if Registered(keys, creds, rp, userId) then
      SameUser(keys, creds[i], rp, userId) && forall k :: 0 <= k < i ==> !SameUser(keys, creds[k], rp, userId)
    else
      creds[i].None? && creatable[i] && forall k :: 0 <= k < i ==> !(creds[k].None? && creatable[k])
  }

  lemma FirstMarkedOf(marks: seq<bool>)
    ensures var r := FirstMarked(marks, 0);
            (r.Some? <==> exists i :: 0 <= i < |marks| && marks[i]) &&
            (r.Some? ==> r.value < |marks| && marks[r.value] && forall k :: 0 <= k < r.value ==> !marks[k])
  {
    FirstMarkedIs(marks, 0);
  }

  lemma ChosenPlace(keys: Keys, creds: seq<Option<Record>>, rp: Bytes, userId: Bytes, creatable: seq<bool>)
    requires |creatable| == |creds|
    ensures var same := FirstMarked(UserMarks(keys, creds, rp, userId), 0);
            var slot := if same.Some? then same else FirstMarked(FreeMarks(creds, creatable), 0);
            (same.Some? <==> Registered(keys, creds, rp, userId)) &&
            (slot.Some? <==> Registered(keys, creds, rp, userId) || HasRoom(creds, creatable)) &&
            (slot.Some? ==> Chosen(keys, creds, rp, userId, creatable, slot.value))
  {
    hide SameUser;
    var users, free := UserMarks(keys, creds, rp, userId), FreeMarks(creds, creatable);
    FirstMarkedOf(users);
    FirstMarkedOf(free);
    assert forall k :: 0 <= k < |creds| ==> users[k] == SameUser(keys, creds[k], rp, userId);
    assert forall k :: 0 <= k < |creds| ==> free[k] == (creds[k].None? && creatable[k]);
  }

  // ---------- The index ----------

  /** One credential more: the party's own record counts it, or a free one becomes its record. */
  lemma EnterAdds(rps: seq<Option<RpRecord>>, rp: Bytes, names: bool)
    ensures var entered := Enter(rps, rp, names);
            (entered.Some? <==> HasEntry(rps, rp) || (names && exists j :: 0 <= j < |rps| && rps[j].None?)) &&
            (entered.Some? ==> exists j: nat :: Entered(rps, entered.value, rp, j))
  {
    var known, empty := FirstMarked(RpMarks(rps, rp), 0), FirstMarked(EmptyMarks(rps), 0);
    KnownIff(rps, rp);
    FirstMarkedOf(EmptyMarks(rps));
    assert forall j :: 0 <= j < |rps| ==> EmptyMarks(rps)[j] == rps[j].None?;
    if known.Some? {
      assert Entered(rps, Enter(rps, rp, names).value, rp, known.value);
    } else if empty.Some? && names {
      assert Entered(rps, Enter(rps, rp, names).value, rp, empty.value);
    }
  }

  predicate Entered(rps: seq<Option<RpRecord>>, after: seq<Option<RpRecord>>, rp: Bytes, j: nat) {
    j < |rps| == |after| && (forall k :: 0 <= k < |rps| && k != j ==> after[k] == rps[k]) &&
    if HasEntry(rps, rp) then
      Counts(rps[j], rp) && Counts(after[j], rp) && after[j].value.named == rps[j].value.named &&
      (rps[j].value.count < BYTE_SPAN - 1 ==> after[j].value.count == rps[j].value.count + 1)
    else
      rps[j].None? && Counts(after[j], rp) && after[j].value.named && after[j].value.count == 1
  }

  /** One credential less: its party's record counts it off, or is gone with the last. */
  lemma LeaveTakes(rps: seq<Option<RpRecord>>, rp: Bytes)
    requires forall j :: 0 <= j < |rps| && rps[j].Some? ==> 0 < rps[j].value.count < BYTE_SPAN
    ensures HasEntry(rps, rp) ==> exists j: nat :: Left(rps, Leave(rps, rp), rp, j)
    ensures !HasEntry(rps, rp) ==> Leave(rps, rp) == rps
  {
    var known := FirstMarked(RpMarks(rps, rp), 0);
    KnownIff(rps, rp);
    if known.Some? {
      assert Left(rps, Leave(rps, rp), rp, known.value);
    }
  }

  predicate Left(rps: seq<Option<RpRecord>>, after: seq<Option<RpRecord>>, rp: Bytes, j: nat) {
    j < |rps| == |after| && (forall k :: 0 <= k < |rps| && k != j ==> after[k] == rps[k]) && Counts(rps[j], rp) &&
    if rps[j].value.count == 1 then after[j].None?
    else
      Counts(after[j], rp) && after[j].value.named == rps[j].value.named &&
      after[j].value.count + 1 == rps[j].value.count
  }

  // ---------- Storing ----------

  /**
   A store succeeds exactly when its public key is there, its credential opens, its user is known or
   there is room, it can be written, and a new user's party is known or can be given a record.
   */
  lemma StoreSucceedsIff(keys: Keys, t: Table, rp: Bytes, sealed: Bytes, publicKey: Bytes,
                         creatable: seq<bool>, works: bool, names: bool)
    requires |creatable| == |t.creds| && |rp| == RP_HASH_LEN
    ensures var r := Store(keys, t, rp, sealed, publicKey, creatable, works, names);
            var sent := keys.open(sealed, rp);
            (r.status == InvalidParameter <==> publicKey == [] || sent.None?) &&
            (r.status == Ok <==>
               publicKey != [] && sent.Some? && works &&
               (Registered(keys, t.creds, rp, sent.value.userId) ||
                (HasRoom(t.creds, creatable) &&
                 (HasEntry(t.rps, rp) || (names && exists j :: 0 <= j < |t.rps| && t.rps[j].None?))))) &&
            (r.status == StoreFull <==>
               publicKey != [] && sent.Some? &&
               !(works && (Registered(keys, t.creds, rp, sent.value.userId) || HasRoom(t.creds, creatable)))) &&
            (r.status == InvalidParameter || r.status == StoreFull ==> r.table == t)
  {
    hide SameUser, Enter, NewRecord, HasEntry, FreeMarks, UserMarks, Registered, HasRoom;
    EnterAdds(t.rps, rp, names);
    var sent := keys.open(sealed, rp);
    if sent.Some? {
      ChosenPlace(keys, t.creds, rp, sent.value.userId, creatable);
    }
  }

  /** What is written is the credential sent, and only its own user is found by it. */
  lemma WrittenHolds(keys: Keys, previous: Option<Record>, rp: Bytes, sealed: Bytes, publicKey: Bytes)
    requires |rp| == RP_HASH_LEN && keys.open(sealed, rp).Some?
    ensures var slot := Some(NewRecord(keys, previous, rp, sealed, publicKey));
            var cred := keys.open(sealed, rp).value;
            Holds(keys, slot, rp, cred, sealed, keys.derive(sealed)) &&
            (slot.value.Container? <==> previous.None? || previous.value.Container?) &&
            (slot.value.Container? ==> slot.value.publicKey == Some(publicKey)) &&
            (forall party, userId :: SameUser(keys, slot, party, userId) <==> party == rp && userId == cred.userId) &&
            forall id :: HasId(keys, slot, id) <==> id == keys.derive(sealed)
  {
    PrefixedParts(rp, keys.derive(sealed), sealed);
  }

  /**
   A credential that is stored is there: in the slot of its user's first credential, else in the first
   free one, and nowhere else has anything changed. A user known before leaves the index alone.
   */
  lemma StoredIsThere(keys: Keys, t: Table, rp: Bytes, sealed: Bytes, publicKey: Bytes,
                      creatable: seq<bool>, works: bool, names: bool) returns (i: nat)
    requires |creatable| == |t.creds| && |rp| == RP_HASH_LEN
    requires Store(keys, t, rp, sealed, publicKey, creatable, works, names).status in {Ok, Corrupt}
    ensures keys.open(sealed, rp).Some?
    ensures var r := Store(keys, t, rp, sealed, publicKey, creatable, works, names);
            var cred := keys.open(sealed, rp).value;
            Chosen(keys, t.creds, rp, cred.userId, creatable, i) && ChangesOnly(t.creds, r.table.creds, i) &&
            Holds(keys, r.table.creds[i], rp, cred, sealed, keys.derive(sealed)) &&
            (var after := r.table.creds[i].value;
             (after.Container? <==> t.creds[i].None? || t.creds[i].value.Container?) &&
             (after.Container? ==> after.publicKey == Some(publicKey))) &&
            (forall party, userId ::
               SameUser(keys, r.table.creds[i], party, userId) <==> party == rp && userId == cred.userId) &&
            (forall id :: HasId(keys, r.table.creds[i], id) <==> id == keys.derive(sealed)) &&
            if Registered(keys, t.creds, rp, cred.userId) || r.status == Corrupt then r.table.rps == t.rps
            else exists j: nat :: Entered(t.rps, r.table.rps, rp, j)
  {
    hide SameUser, HasId, Enter, NewRecord, FreeMarks, UserMarks, Registered, HasRoom, Chosen, Entered, Holds;
    var cred := keys.open(sealed, rp).value;
    EnterAdds(t.rps, rp, names);
    ChosenPlace(keys, t.creds, rp, cred.userId, creatable);
    var same := FirstMarked(UserMarks(keys, t.creds, rp, cred.userId), 0);
    var slot := if same.Some? then same else FirstMarked(FreeMarks(t.creds, creatable), 0);
    i := slot.value;
    WrittenHolds(keys, t.creds[i], rp, sealed, publicKey);
  }

  /**
   A credential just stored can be listed: in a container, whose public key is ready, in any case, and as
   plain bytes exactly where its ID gives a key.
   */
  lemma StoredIsListable(keys: Keys, t: Table, rp: Bytes, sealed: Bytes, publicKey: Bytes,
                         creatable: seq<bool>, works: bool, names: bool) returns (i: nat)
    requires |creatable| == |t.creds| && |rp| == RP_HASH_LEN
    requires Store(keys, t, rp, sealed, publicKey, creatable, works, names).status == Ok
    ensures var creds := Store(keys, t, rp, sealed, publicKey, creatable, works, names).table.creds;
            i < |creds| && Belongs(creds[i], rp) && keys.open(sealed, rp).Some? &&
            (Listable(keys, creds[i].value, rp) <==>
               creds[i].value.Container? || keys.derivable(keys.derive(sealed), keys.open(sealed, rp).value.curve))
  {
    hide Store, Load, ResidentIdOf;
    i := StoredIsThere(keys, t, rp, sealed, publicKey, creatable, works, names);
  }

  // ---------- Deleting and updating ----------

  /** `i` is the first slot found by this resident ID. */
  predicate FirstWithId(keys: Keys, creds: seq<Option<Record>>, id: Bytes, i: nat) {
    i < |creds| && HasId(keys, creds[i], id) && forall k :: 0 <= k < i ==> !HasId(keys, creds[k], id)
  }

  lemma IdPlace(keys: Keys, creds: seq<Option<Record>>, id: Bytes)
    ensures var slot := FirstMarked(IdMarks(keys, creds, id), 0);
            (slot.None? <==> forall i :: 0 <= i < |creds| ==> !HasId(keys, creds[i], id)) &&
            (slot.Some? ==> FirstWithId(keys, creds, id, slot.value)) &&
            forall i: nat :: FirstWithId(keys, creds, id, i) ==> slot == Some(i)
  {
    hide HasId;
    var marks := IdMarks(keys, creds, id);
    FirstMarkedOf(marks);
    assert forall k :: 0 <= k < |creds| ==> marks[k] == HasId(keys, creds[k], id);
    forall i: nat | FirstWithId(keys, creds, id, i) ensures FirstMarked(marks, 0) == Some(i) {
      assert marks[i];
      var r := FirstMarked(marks, 0).value;
      assert HasId(keys, creds[r], id);
    }
  }

  /** A deletion succeeds exactly when a slot has the ID, the first such names its party, and it can be removed. */
  lemma DeleteSucceedsIff(keys: Keys, t: Table, id: Bytes, works: bool)
    ensures var r := Delete(keys, t, id, works);
            (r.status == NoCredentials <==> forall i :: 0 <= i < |t.creds| ==> !HasId(keys, t.creds[i], id)) &&
            (r.status == Ok <==>
               works && exists i: nat :: FirstWithId(keys, t.creds, id, i) && RpHash(t.creds[i].value).Some?) &&
            (r.status != Ok ==> r.table == t && r.status in {NoCredentials, NotAllowed})
  {
    hide HasId, IdMarks, RpHash, Leave, FirstWithId;
    IdPlace(keys, t.creds, id);
    IdHeld(keys, t.creds, id);
  }

  lemma IdHeld(keys: Keys, creds: seq<Option<Record>>, id: Bytes)
    ensures forall i: nat :: FirstWithId(keys, creds, id, i) ==> i < |creds| && creds[i].Some?
  {
  }

  /**
   What is deleted is gone: the first slot with the ID is empty, no other has changed, its party has
   one credential less on the table and in the index, and no party's name is lost.
   */
  lemma DeletedIsGone(keys: Keys, t: Table, id: Bytes, works: bool) returns (i: nat, rp: Bytes)
    requires IndexAgrees(t) && Delete(keys, t, id, works).status == Ok
    ensures FirstWithId(keys, t.creds, id, i) && Belongs(t.creds[i], rp)
    ensures var u := Delete(keys, t, id, works).table;
            ChangesOnly(t.creds, u.creds, i) && u.creds[i].None? &&
            (exists j: nat :: Left(t.rps, u.rps, rp, j)) && (HasEntry(u.rps, rp) <==> Tally(u.creds, rp) > 0) &&
            forall party :: Tally(u.creds, party) == Tally(t.creds, party) - (if party == rp then 1 else 0)
  {
    hide IdMarks, Leave, FirstWithId, Left, HasEntry;
    IdPlace(keys, t.creds, id);
    IdHeld(keys, t.creds, id);
    i := FirstMarked(IdMarks(keys, t.creds, id), 0).value;
    rp := RpHash(t.creds[i].value).value;
    forall party ensures Tally(t.creds[i := None], party) == Tally(t.creds, party) - (if party == rp then 1 else 0) {
      TallyUpdate(t.creds, i, None, party);
    }
    LeaveTakes(t.rps, rp);
    DeleteKeepsIndex(keys, t, id, works);
    EntryIff(t, rp);
    EntryIff(Delete(keys, t, id, works).table, rp);
    TallyPositive(t.creds, rp);
  }

  lemma EntryIff(t: Table, rp: Bytes)
    requires IndexAgrees(t)
    ensures HasEntry(t.rps, rp) <==> Tally(t.creds, rp) > 0
  {
    if !HasEntry(t.rps, rp) {
      UnenteredHasNone(t, rp);
    }
  }

  ghost predicate UniqueIds(keys: Keys, creds: seq<Option<Record>>) {
    forall i, j, id :: 0 <= i < j < |creds| && HasId(keys, creds[i], id) ==> !HasId(keys, creds[j], id)
  }

  /** Where no two credentials share an ID, a deleted one is found by nothing and cannot be deleted again. */
  lemma DeletedTwice(keys: Keys, t: Table, id: Bytes, works: bool, again: bool)
    requires UniqueIds(keys, t.creds) && Delete(keys, t, id, works).status == Ok
    ensures var u := Delete(keys, t, id, works).table;
            UniqueIds(keys, u.creds) && (forall i :: 0 <= i < |u.creds| ==> !HasId(keys, u.creds[i], id)) &&
            Delete(keys, u, id, again) == Outcome(u, NoCredentials)
  {
    hide IdMarks, Leave;
    IdPlace(keys, t.creds, id);
    IdPlace(keys, Delete(keys, t, id, works).table.creds, id);
  }

  /** The credential's user, as far as it loads. */
  function UserOf(keys: Keys, r: Record): Option<Bytes> {
    if !Loads(keys, r) then None else Some(Load(keys, r, RpHash(r).value).value.cred.userId)
  }

  /** An update succeeds exactly when the first slot with the ID loads, is the user's, and can be sealed and written. */
  lemma UpdateSucceedsIff(keys: Keys, t: Table, id: Bytes, userId: Bytes, sealed: Option<Bytes>, works: bool)
    ensures var r := UpdateUser(keys, t, id, userId, sealed, works);
            (r.status == NoCredentials <==> forall i :: 0 <= i < |t.creds| ==> !HasId(keys, t.creds[i], id)) &&
            (r.status == Ok <==>
               sealed.Some? && works &&
               exists i: nat :: FirstWithId(keys, t.creds, id, i) && UserOf(keys, t.creds[i].value) == Some(userId)) &&
            (r.status == InvalidParameter <==>
               exists i: nat ::
                 FirstWithId(keys, t.creds, id, i) && UserOf(keys, t.creds[i].value) !in {None, Some(userId)}) &&
            (r.status != Ok ==> r.table == t)
  {
    hide HasId, IdMarks, RpHash, Load, Update, FirstWithId;
    IdPlace(keys, t.creds, id);
    IdHeld(keys, t.creds, id);
    if sealed.Some? {
      UpdateGoes(keys, t, id, sealed);
    }
  }

  lemma UpdateGoes(keys: Keys, t: Table, id: Bytes, sealed: Option<Bytes>)
    requires sealed.Some?
    ensures var slot := FirstMarked(IdMarks(keys, t.creds, id), 0);
            slot.Some? && RpHash(t.creds[slot.value].value).Some? ==>
              Update(keys, t.creds[slot.value].value, sealed.value).Some?
  {
  }

  /** What is updated holds the credential sealed anew, under the same ID and with the same key ready. */
  lemma UpdatedIsThere(keys: Keys, t: Table, id: Bytes, userId: Bytes, sealed: Bytes, works: bool)
    returns (i: nat, rp: Bytes)
    requires UpdateUser(keys, t, id, userId, Some(sealed), works).status == Ok
    ensures FirstWithId(keys, t.creds, id, i) && Belongs(t.creds[i], rp)
    ensures var u := UpdateUser(keys, t, id, userId, Some(sealed), works).table;
            ChangesOnly(t.creds, u.creds, i) && u.rps == t.rps && Belongs(u.creds[i], rp) &&
            (keys.open(sealed, rp).Some? ==>
               Holds(keys, u.creds[i], rp, keys.open(sealed, rp).value, sealed, id)) &&
            (u.creds[i].value.Container? <==> t.creds[i].value.Container?) &&
            (t.creds[i].value.Container? ==> u.creds[i].value.publicKey == t.creds[i].value.publicKey)
  {
    hide IdMarks, Load;
    IdPlace(keys, t.creds, id);
    i := FirstMarked(IdMarks(keys, t.creds, id), 0).value;
    rp := RpHash(t.creds[i].value).value;
    if keys.open(sealed, rp).Some? {
      UpdateKeepsIdentity(keys, t.creds[i].value, rp, sealed);
    } else {
      UpdateStays(keys, t.creds[i].value, rp, sealed);
    }
  }

  lemma UpdateStays(keys: Keys, r: Record, rp: Bytes, sealed: Bytes)
    requires MatchesRp(r, rp) && ResidentIdOf(keys, r).Some?
    ensures Update(keys, r, sealed).Some? && MatchesRp(Update(keys, r, sealed).value, rp)
  {
    if r.Plain? {
      var bytes := rp + ResidentIdOf(keys, r).value + sealed;
      assert bytes[..RP_HASH_LEN] == rp;
    }
  }

  // ---------- Runs ----------

  /** The event is a deletion that succeeds and takes slot `k`. */
  predicate Deletes(keys: Keys, keyOf: KeyOf, t: Table, e: Event, k: nat) {
    e.DeleteCredential? && Perform(keys, keyOf, t, e).status == Ok && FirstWithId(keys, t.creds, e.id, k)
  }

  lemma StoreKeepsUser(keys: Keys, t: Table, party: Bytes, sealed: Bytes, publicKey: Bytes, creatable: seq<bool>,
                       works: bool, names: bool, k: nat, rp: Bytes, userId: Bytes)
    requires |creatable| == |t.creds| && |party| == RP_HASH_LEN
    requires k < |t.creds| && SameUser(keys, t.creds[k], rp, userId)
    ensures var u := Store(keys, t, party, sealed, publicKey, creatable, works, names).table;
            k < |u.creds| && SameUser(keys, u.creds[k], rp, userId)
  {
    hide Store, Load, Holds;
    var r := Store(keys, t, party, sealed, publicKey, creatable, works, names);
    StoreSucceedsIff(keys, t, party, sealed, publicKey, creatable, works, names);
    if r.status in {Ok, Corrupt} {
      var i := StoredIsThere(keys, t, party, sealed, publicKey, creatable, works, names);
    } else {
      StoreStatuses(keys, t, party, sealed, publicKey, creatable, works, names);
    }
  }

  lemma StoreStatuses(keys: Keys, t: Table, rp: Bytes, sealed: Bytes, publicKey: Bytes, creatable: seq<bool>,
                      works: bool, names: bool)
    requires |creatable| == |t.creds| && |rp| == RP_HASH_LEN
    ensures Store(keys, t, rp, sealed, publicKey, creatable, works, names).status in
      {Ok, Corrupt, InvalidParameter, StoreFull}
  {
  }

  lemma UpdateKeepsUser(keys: Keys, t: Table, id: Bytes, named: Bytes, user: Bytes, sealed: Option<Bytes>, works: bool,
                        k: nat, rp: Bytes, userId: Bytes)
    requires k < |t.creds| && SameUser(keys, t.creds[k], rp, userId)
    requires sealed.Some? && FirstWithId(keys, t.creds, id, k) && Loads(keys, t.creds[k].value) ==>
      Reseals(keys, t.creds[k].value, user, sealed.value)
    ensures var u := UpdateUser(keys, t, id, named, sealed, works).table;
            k < |u.creds| && SameUser(keys, u.creds[k], rp, userId)
  {
    hide UpdateUser, HasId;
    UpdateSucceedsIff(keys, t, id, named, sealed, works);
    if UpdateUser(keys, t, id, named, sealed, works).status == Ok {
      var i, party := UpdatedIsThere(keys, t, id, named, sealed.value, works);
    }
  }

  lemma DeleteKeepsUser(keys: Keys, t: Table, id: Bytes, works: bool, k: nat, rp: Bytes, userId: Bytes)
    requires k < |t.creds| && SameUser(keys, t.creds[k], rp, userId)
    ensures var r := Delete(keys, t, id, works);
            k < |r.table.creds| &&
            (SameUser(keys, r.table.creds[k], rp, userId) <==>
               !(r.status == Ok && FirstWithId(keys, t.creds, id, k)))
  {
    hide IdMarks, Leave, Load;
    IdPlace(keys, t.creds, id);
  }

  /** Whatever happens, a slot keeps the user it holds, unless a deletion takes just that slot. */
  lemma EventKeepsUser(keys: Keys, keyOf: KeyOf, t: Table, e: Event, k: nat, rp: Bytes, userId: Bytes)
    requires Enabled(keys, keyOf, t, e) && k < |t.creds| && SameUser(keys, t.creds[k], rp, userId)
    ensures var u := Perform(keys, keyOf, t, e).table;
            k < |u.creds| && (SameUser(keys, u.creds[k], rp, userId) <==> !Deletes(keys, keyOf, t, e, k))
  {
    hide FirstWithId, SameUser, Store, Delete, UpdateUser;
    match e
    case MakeCredential(party, cred, sealed, creatable, works, names) =>
      StoreKeepsUser(keys, t, party, sealed, keyOf(keys.derive(sealed), cred.curve), creatable, works, names, k, rp,
        userId);
    case UpdateUserInformation(id, _, user, sealed, works) =>
      IdPlace(keys, t.creds, id);
      UpdateKeepsUser(keys, t, id, e.userId, user, sealed, works, k, rp, userId);
    case DeleteCredential(id, works) => DeleteKeepsUser(keys, t, id, works, k, rp, userId);
  }

  /** Over every run a registered user stays registered, in the same slot, until a deletion takes that slot. */
  lemma {:induction false} RunKeepsUser(keys: Keys, keyOf: KeyOf, t: Table, events: seq<Event>, k: nat, rp: Bytes,
                                        userId: Bytes)
    requires Shaped(t) && k < MAX_RESIDENT && SameUser(keys, t.creds[k], rp, userId)
    requires forall i :: 0 <= i < |events| && events[i].MakeCredential? ==>
      |events[i].creatable| == MAX_RESIDENT && |events[i].rp| == RP_HASH_LEN
    requires Run(keys, keyOf, t, events)
    requires forall n :: 0 <= n < |events| ==>
      !Deletes(keys, keyOf, Play(keys, keyOf, t, events[..n]), events[n], k)
    ensures SameUser(keys, Play(keys, keyOf, t, events).creds[k], rp, userId)
    decreases |events|
  {
    hide SameUser, Deletes, Perform, Enabled;
    if events != [] {
      var before := events[..|events| - 1];
      assert forall n :: 0 <= n < |before| ==> before[..n] == events[..n];
      RunKeepsUser(keys, keyOf, t, before, k, rp, userId);
      EventKeepsUser(keys, keyOf, Play(keys, keyOf, t, before), events[|events| - 1], k, rp, userId);
    }
  }
}
