/**
 The procedures of credential management on the two tables and their cursors: counting,
 enumerating, storing, deleting and updating.
 */
module CredentialManagement {
  import opened Basics
  import opened CredentialEnumeration
  import opened CredentialRecords
  import opened CredentialTable

  // ---------- Metadata ----------

  function Present(creds: seq<Option<Record>>): nat {
    if creds == [] then 0 else Present(creds[..|creds| - 1]) + (if creds[|creds| - 1].Some? then 1 else 0)
  }

  lemma {:induction false} PresentBound(creds: seq<Option<Record>>)
    ensures Present(creds) <= |creds|
    decreases |creds|
  {
    if creds != [] {
      PresentBound(creds[..|creds| - 1]);
    }
  }

  // ---------- The procedures ----------

  lemma MarkedStep(marks: seq<bool>, i: nat)
    requires i < |marks|
    ensures Marked(marks[..i + 1]) == Marked(marks[..i]) + (if marks[i] then [i] else [])
  {
    assert marks[..i + 1][..i] == marks[..i];
  }

  lemma {:induction false} MarkedGrows(marks: seq<bool>, i: nat)
    requires i <= |marks|
    ensures Marked(marks[..i]) <= Marked(marks)
    decreases |marks| - i
  {
    if i < |marks| {
      MarkedStep(marks, i);
      MarkedGrows(marks, i + 1);
    } else {
      assert marks[..i] == marks;
    }
  }

  lemma FirstIs(marks: seq<bool>, i: nat, r: nat)
    requires i <= r < |marks| && marks[r] && forall k :: i <= k < r ==> !marks[k]
    ensures FirstMarked(marks, i) == Some(r)
  {
    FirstMarkedIs(marks, i);
  }

  lemma NoneIs(marks: seq<bool>)
    requires forall k :: 0 <= k < |marks| ==> !marks[k]
    ensures FirstMarked(marks, 0) == None
  {
    FirstMarkedIs(marks, 0);
  }

  class Manager {
    const keys: Keys
    var creds: array<Option<Record>>
    var rps: array<Option<RpRecord>>
    var rpCounter: nat
    var rpTotal: nat
    var credCounter: nat
    var credTotal: nat
    var rpIdHash: Bytes

    ghost predicate Valid()
      reads this
    {
      creds.Length == MAX_RESIDENT && rps.Length == MAX_RESIDENT && creds as object != rps as object &&
      rpCounter > 0 && credCounter > 0
    }

    ghost function State(): Table
      reads this, creds, rps
    {
      Table(creds[..], rps[..])
    }

    ghost function Session(): Listing
      reads this
    {
      Listing(Cursor(credCounter, credTotal), rpIdHash)
    }

    constructor (k: Keys)
      ensures Valid() && fresh(creds) && fresh(rps) && keys == k && IndexAgrees(State())
      ensures rpCounter == 1 && rpTotal == 0 && View(creds[..], Session()) == Started(creds[..])
    {
      keys := k;
      creds := new Option<Record>[MAX_RESIDENT](_ => None);
      rps := new Option<RpRecord>[MAX_RESIDENT](_ => None);
      rpCounter, rpTotal, credCounter, credTotal, rpIdHash := 1, 0, 1, 0, [];
    }

    /** The number of credentials is counted in one byte: it is right except when the table is full. */
    method Metadata() returns (existing: nat, remaining: nat)
      requires Valid()
      ensures existing + remaining == MAX_RESIDENT
      ensures existing == Present(creds[..]) <==> Present(creds[..]) < MAX_RESIDENT
      ensures Present(creds[..]) == MAX_RESIDENT ==> existing == 0
    {
      existing := 0;
      for i := 0 to creds.Length
        invariant existing == Present(creds[..i]) % BYTE_SPAN
      {
        assert creds[..i + 1][..i] == creds[..i];
        if creds[i].Some? {
          existing := (existing + 1) % BYTE_SPAN;
        }
      }
      assert creds[..creds.Length] == creds[..];
      PresentBound(creds[..]);
      remaining := MAX_RESIDENT - existing;
    }

    method FirstRp() returns (reply: Reply)
      requires Valid()
      modifies this`rpCounter, this`rpTotal
      ensures Valid() && (Cursor(rpCounter, rpTotal), reply) == BeginRps(rps[..])
    {
      rpCounter, rpTotal := 1, 0;
      ghost var marks := LiveMarks(rps[..]);
      var found: Option<nat> := None;
      var skip := 0;
      for i := 0 to rps.Length
        invariant rpCounter == 1 && skip == rpTotal == |Marked(marks[..i])|
        invariant found == (if skip == 0 then None else Some(Marked(marks[..i])[0]))
        invariant found.Some? ==> found.value < rps.Length && rps[found.value].Some?
      {
        MarkedStep(marks, i);
        if rps[i].Some? && rps[i].value.count > 0 {
          skip := skip + 1;
          if skip == rpCounter && found.None? {
            found := Some(i);
          }
          rpTotal := rpTotal + 1;
        }
      }
      assert marks[..rps.Length] == marks;
      if found.None? {
        return Nothing;
      }
      rpCounter := rpCounter + 1;
      if !rps[found.value].value.named {
        return Failed;
      }
      reply := Item(found.value, Some(rpTotal));
    }

    method NextRp() returns (reply: Reply)
      requires Valid()
      modifies this`rpCounter
      ensures Valid() && (Cursor(rpCounter, rpTotal), reply) == NextRps(rps[..], Cursor(old(rpCounter), rpTotal))
    {
      if rpCounter > rpTotal {
        return Refused;
      }
      ghost var marks := LiveMarks(rps[..]);
      var found: Option<nat> := None;
      var skip := 0;
      var i := 0;
      while i < rps.Length && found.None?
        invariant i <= rps.Length && skip == |Marked(marks[..i])| && rpCounter == old(rpCounter)
        invariant found.None? ==> skip < rpCounter
        invariant found.Some? ==> skip == rpCounter && found.value == Marked(marks[..i])[rpCounter - 1]
        invariant found.Some? ==> found.value < rps.Length && rps[found.value].Some?
      {
        MarkedStep(marks, i);
        if rps[i].Some? && rps[i].value.count > 0 {
          skip := skip + 1;
          if skip == rpCounter {
            found := Some(i);
          }
        }
        i := i + 1;
      }
      MarkedGrows(marks, i);
      if found.None? {
        assert marks[..i] == marks;
        return Nothing;
      }
      rpCounter := rpCounter + 1;
      if !rps[found.value].value.named {
        return Failed;
      }
      reply := Item(found.value, None);
    }

    /** Loads a credential and then its key, from the cache or anew; a container without a cached key is refused. */
    method ReadKey(record: Record, rp: Bytes) returns (ok: bool)
      ensures ok == Listable(keys, record, rp)
    {
      var loaded := Load(keys, record, rp);
      if loaded.None? {
        return false;
      }
      var cached := record.Container? && record.publicKey.Some?;
      if record.Container? && !cached {
        return false;
      }
      var stable := loaded.value.residentId.Some? && UsesStableKeys(loaded.value.residentId.value);
      var seed := if stable then loaded.value.residentId.value else loaded.value.sealed;
      if !cached && !keys.derivable(seed, loaded.value.cred.curve) {
        return false;
      }
      ok := true;
    }

    method FirstCred(rp: Bytes) returns (reply: Reply)
      requires Valid()
      modifies this`credCounter, this`credTotal, this`rpIdHash
      ensures Valid() && (Session(), reply) == Ask(keys, creds[..], old(Session()), rp)
    {
      if |rp| != RP_HASH_LEN {
        return Invalid;
      }
      credCounter, credTotal := 1, 0;
      ghost var marks := RpCredMarks(creds[..], rp);
      var found: Option<nat> := None;
      var skip := 0;
      for i := 0 to creds.Length
        invariant credCounter == 1 && skip == credTotal == |Marked(marks[..i])| && rpIdHash == old(rpIdHash)
        invariant found == (if skip == 0 then None else Some(Marked(marks[..i])[0]))
        invariant found.Some? ==> found.value < creds.Length && creds[found.value].Some?
      {
        MarkedStep(marks, i);
        if creds[i].Some? && MatchesRp(creds[i].value, rp) {
          skip := skip + 1;
          if skip == credCounter && found.None? {
            found := Some(i);
          }
          credTotal := credTotal + 1;
        }
      }
      assert marks[..creds.Length] == marks;
      if found.None? {
        return Nothing;
      }
      var listable := ReadKey(creds[found.value].value, rp);
      if !listable {
        return Refused;
      }
      credCounter := credCounter + 1;
      if credCounter <= credTotal {
        rpIdHash := rp;
      }
      reply := Item(found.value, Some(credTotal));
    }

    method NextCred() returns (reply: Reply)
      requires Valid()
      modifies this`credCounter
      ensures Valid() && (Session(), reply) == More(keys, creds[..], old(Session()))
    {
      if credCounter > credTotal {
        return Refused;
      }
      ghost var marks := RpCredMarks(creds[..], rpIdHash);
      var found: Option<nat> := None;
      var skip := 0;
      var i := 0;
      while i < creds.Length && found.None?
        invariant i <= creds.Length && skip == |Marked(marks[..i])| && credCounter == old(credCounter)
        invariant found.None? ==> skip < credCounter
        invariant found.Some? ==> skip == credCounter && found.value == Marked(marks[..i])[credCounter - 1]
        invariant found.Some? ==> found.value < creds.Length && creds[found.value].Some?
      {
        MarkedStep(marks, i);
        if creds[i].Some? && MatchesRp(creds[i].value, rpIdHash) {
          skip := skip + 1;
          if skip == credCounter {
            found := Some(i);
          }
        }
        i := i + 1;
      }
      MarkedGrows(marks, i);
      if found.None? {
        assert marks[..i] == marks;
        return Nothing;
      }
      var listable := ReadKey(creds[found.value].value, rpIdHash);
      if !listable {
        return Refused;
      }
      credCounter := credCounter + 1;
      reply := Item(found.value, None);
    }

    // ---------- Changing the table ----------

    method FindId(id: Bytes) returns (slot: Option<nat>)
      requires Valid()
      ensures slot == FirstMarked(IdMarks(keys, creds[..], id), 0)
    {
      ghost var marks := IdMarks(keys, creds[..], id);
      for i := 0 to creds.Length
        invariant forall k :: 0 <= k < i ==> !marks[k]
      {
        if creds[i].Some? && MatchesId(keys, creds[i].value, id) {
          FirstIs(marks, 0, i);
          return Some(i);
        }
      }
      NoneIs(marks);
      slot := None;
    }

    /** The relying party's record if it has one, else the first free place. */
    method FindEntry(rp: Bytes) returns (known: bool, place: Option<nat>)
      requires Valid()
      ensures known == FirstMarked(RpMarks(rps[..], rp), 0).Some?
      ensures place == if known then FirstMarked(RpMarks(rps[..], rp), 0) else FirstMarked(EmptyMarks(rps[..]), 0)
    {
      ghost var taken, empty := RpMarks(rps[..], rp), EmptyMarks(rps[..]);
      place := None;
      for i := 0 to rps.Length
        invariant forall k :: 0 <= k < i ==> !taken[k]
        invariant place.Some? ==> place == FirstMarked(empty, 0)
        invariant place.None? ==> forall k :: 0 <= k < i ==> !empty[k]
      {
        if rps[i].None? {
          if place.None? {
            FirstIs(empty, 0, i);
            place := Some(i);
          }
        } else if rps[i].value.hash == rp {
          FirstIs(taken, 0, i);
          return true, Some(i);
        }
      }
      NoneIs(taken);
      if place.None? {
        NoneIs(empty);
      }
      known := false;
    }

    method EnterIndex(rp: Bytes, names: bool) returns (ok: bool)
      requires Valid()
      modifies rps
      ensures ok == Enter(old(rps[..]), rp, names).Some?
      ensures rps[..] == if ok then Enter(old(rps[..]), rp, names).value else old(rps[..])
    {
      var known, place := FindEntry(rp);
      if place.None? {
        return false;
      }
      if known {
        var record := rps[place.value].value;
        rps[place.value] := Some(record.(count := (record.count + 1) % BYTE_SPAN));
      } else {
        if !names {
          return false;
        }
        rps[place.value] := Some(RpRecord(1, rp, true));
      }
      ok := true;
    }

    method LeaveIndex(rp: Bytes)
      requires Valid()
      modifies rps
      ensures rps[..] == Leave(old(rps[..]), rp)
    {
      var known, place := FindEntry(rp);
      if known {
        var count := (rps[place.value].value.count + BYTE_SPAN - 1) % BYTE_SPAN;
        if count == 0 {
          rps[place.value] := None;
        } else {
          rps[place.value] := Some(rps[place.value].value.(count := count));
        }
      }
    }

    /** The slot of the same user's credential if there is one, else the first that can take a new one. */
    method FindSlot(rp: Bytes, userId: Bytes, creatable: seq<bool>) returns (same: bool, slot: Option<nat>)
      requires Valid() && |creatable| == creds.Length
      ensures same == FirstMarked(UserMarks(keys, creds[..], rp, userId), 0).Some?
      ensures slot == if same then FirstMarked(UserMarks(keys, creds[..], rp, userId), 0)
                      else FirstMarked(FreeMarks(creds[..], creatable), 0)
    {
      ghost var user, free := UserMarks(keys, creds[..], rp, userId), FreeMarks(creds[..], creatable);
      slot := None;
      for i := 0 to creds.Length
        invariant forall k :: 0 <= k < i ==> !user[k]
        invariant slot.Some? ==> slot == FirstMarked(free, 0)
        invariant slot.None? ==> forall k :: 0 <= k < i ==> !free[k]
      {
        if creds[i].None? {
          if slot.None? && creatable[i] {
            FirstIs(free, 0, i);
            slot := Some(i);
          }
        } else if MatchesRp(creds[i].value, rp) {
          var loaded := Load(keys, creds[i].value, rp);
          if loaded.Some? && loaded.value.cred.userId == userId {
            FirstIs(user, 0, i);
            return true, Some(i);
          }
        }
      }
      NoneIs(user);
      if slot.None? {
        NoneIs(free);
      }
      same := false;
    }

    method StoreCredential(rp: Bytes, sealed: Bytes, publicKey: Bytes, creatable: seq<bool>, works: bool, names: bool)
      returns (status: Status)
      requires Valid() && |creatable| == creds.Length && |rp| == RP_HASH_LEN
      modifies creds, rps
      ensures Outcome(State(), status) == Store(keys, old(State()), rp, sealed, publicKey, creatable, works, names)
    {
      hide FirstMarked, Load, IdMarks, UserMarks, FreeMarks;
      var cred := keys.open(sealed, rp);
      if publicKey == [] || cred.None? {
        return InvalidParameter;
      }
      var same, slot := FindSlot(rp, cred.value.userId, creatable);
      if slot.None? || !works {
        return StoreFull;
      }
      var i := slot.value;
      if creds[i].Some? && creds[i].value.Plain? {
        creds[i] := Some(Plain(rp + keys.derive(sealed) + sealed));
      } else {
        creds[i] := Some(Container(rp, keys.derive(sealed), sealed, Some(publicKey)));
      }
      if !same {
        var entered := EnterIndex(rp, names);
        if !entered {
          return Corrupt;
        }
      }
      status := Ok;
    }

    method DeleteStored(id: Bytes, works: bool) returns (status: Status)
      requires Valid()
      modifies creds, rps
      ensures Outcome(State(), status) == Delete(keys, old(State()), id, works)
    {
      var slot := FindId(id);
      if slot.None? {
        return NoCredentials;
      }
      var rp := RpHash(creds[slot.value].value);
      if rp.None? || !works {
        return NotAllowed;
      }
      creds[slot.value] := None;
      LeaveIndex(rp.value);
      status := Ok;
    }

    method UpdateStored(id: Bytes, userId: Bytes, sealed: Option<Bytes>, works: bool) returns (status: Status)
      requires Valid()
      modifies creds
      ensures Outcome(State(), status) == UpdateUser(keys, old(State()), id, userId, sealed, works)
    {
      var slot := FindId(id);
      if slot.None? {
        return NoCredentials;
      }
      var record := creds[slot.value].value;
      var rp := RpHash(record);
      if rp.None? {
        return NotAllowed;
      }
      var loaded := Load(keys, record, rp.value);
      if loaded.None? {
        return NotAllowed;
      }
      if loaded.value.cred.userId != userId {
        return InvalidParameter;
      }
      if sealed.None? {
        return NotAllowed;
      }
      var updated := Update(keys, record, sealed.value);
      if updated.None? || !works {
        return NotAllowed;
      }
      creds[slot.value] := updated;
      status := Ok;
    }
  }
}
