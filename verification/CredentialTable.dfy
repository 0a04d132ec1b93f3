/**
 The table of resident credentials and the counted index of relying parties beside it:
 storing, deleting and updating, and what every run of them keeps.
 */
module CredentialTable {
  import opened Basics
  import opened CredentialRecords

  const MAX_RESIDENT: nat := 256
  const BYTE_SPAN: nat := 256

  /** A relying party's index record: a count of one byte, its hash, and its name, which may fail to open. */
  datatype RpRecord = RpRecord(count: nat, hash: Bytes, named: bool)

  datatype Table = Table(creds: seq<Option<Record>>, rps: seq<Option<RpRecord>>)

  predicate Shaped(t: Table) {
    |t.creds| == MAX_RESIDENT && |t.rps| == MAX_RESIDENT
  }

  // ---------- Searches ----------

  predicate Belongs(slot: Option<Record>, rp: Bytes) {
    slot.Some? && MatchesRp(slot.value, rp)
  }

  predicate SameUser(keys: Keys, slot: Option<Record>, rp: Bytes, userId: Bytes) {
    Belongs(slot, rp) && Load(keys, slot.value, rp).Some? && Load(keys, slot.value, rp).value.cred.userId == userId
  }

  predicate HasId(keys: Keys, slot: Option<Record>, id: Bytes) {
    slot.Some? && MatchesId(keys, slot.value, id)
  }

  predicate Counts(slot: Option<RpRecord>, rp: Bytes) {
    slot.Some? && slot.value.hash == rp
  }

  /** The least place from `i` on that is marked, if there is one. */
  function FirstMarked(marks: seq<bool>, i: nat): (r: Option<nat>)
    requires i <= |marks|
    ensures r.Some? ==> i <= r.value < |marks| && marks[r.value]
    decreases |marks| - i
  {
    if i == |marks| then None else if marks[i] then Some(i) else FirstMarked(marks, i + 1)
  }

  lemma {:induction false} FirstMarkedIs(marks: seq<bool>, i: nat)
    requires i <= |marks|
    ensures FirstMarked(marks, i).None? <==> forall k :: i <= k < |marks| ==> !marks[k]
    ensures FirstMarked(marks, i).Some? ==> forall k :: i <= k < FirstMarked(marks, i).value ==> !marks[k]
    decreases |marks| - i
  {
    if i < |marks| {
      FirstMarkedIs(marks, i + 1);
    }
  }

  function UserMarks(keys: Keys, creds: seq<Option<Record>>, rp: Bytes, userId: Bytes): (m: seq<bool>)
    ensures |m| == |creds|
  {
    seq(|creds|, i requires 0 <= i < |creds| => SameUser(keys, creds[i], rp, userId))
  }

  function FreeMarks(creds: seq<Option<Record>>, creatable: seq<bool>): (m: seq<bool>)
    requires |creatable| == |creds|
    ensures |m| == |creds|
  {
    seq(|creds|, i requires 0 <= i < |creds| => creds[i].None? && creatable[i])
  }

  function IdMarks(keys: Keys, creds: seq<Option<Record>>, id: Bytes): (m: seq<bool>)
    ensures |m| == |creds|
  {
    seq(|creds|, i requires 0 <= i < |creds| => HasId(keys, creds[i], id))
  }

  function RpMarks(rps: seq<Option<RpRecord>>, rp: Bytes): (m: seq<bool>)
    ensures |m| == |rps|
  {
    seq(|rps|, i requires 0 <= i < |rps| => Counts(rps[i], rp))
  }

  function EmptyMarks(rps: seq<Option<RpRecord>>): (m: seq<bool>)
    ensures |m| == |rps|
  {
    seq(|rps|, i requires 0 <= i < |rps| => rps[i].None?)
  }

  // ---------- Operations ----------

  datatype Status = Ok | NoCredentials | NotAllowed | InvalidParameter | StoreFull | Corrupt

  datatype Outcome = Outcome(table: Table, status: Status)

  function Counted(r: RpRecord, count: nat): Option<RpRecord> {
    Some(r.(count := count))
  }

  /** The count goes up by one, in the relying party's record or in a new one, if its name can be sealed. */
  function Enter(rps: seq<Option<RpRecord>>, rp: Bytes, names: bool): Option<seq<Option<RpRecord>>> {
    var known := FirstMarked(RpMarks(rps, rp), 0);
    if known.Some? then
      var r := rps[known.value].value;
      Some(rps[known.value := Counted(r, (r.count + 1) % BYTE_SPAN)])
    else
      var empty := FirstMarked(EmptyMarks(rps), 0);
      if empty.Some? && names then Some(rps[empty.value := Some(RpRecord(1, rp, true))]) else None
  }

  /** The count goes down by one, and its record goes with the last credential. */
  function Leave(rps: seq<Option<RpRecord>>, rp: Bytes): seq<Option<RpRecord>> {
    var known := FirstMarked(RpMarks(rps, rp), 0);
    if known.None? then rps
    else
      var count := (rps[known.value].value.count + BYTE_SPAN - 1) % BYTE_SPAN;
      rps[known.value := if count == 0 then None else Counted(rps[known.value].value, count)]
  }

  /** The record written for a sealed credential; one stored as plain bytes stays plain. */
  function NewRecord(keys: Keys, previous: Option<Record>, rp: Bytes, sealed: Bytes, publicKey: Bytes): Record {
    if previous.Some? && previous.value.Plain? then Plain(rp + keys.derive(sealed) + sealed)
    else Container(rp, keys.derive(sealed), sealed, Some(publicKey))
  }

  /**
   `works` says whether the credential can be written, `names` whether a new relying party's name
   can be sealed; that comes after the credential has been written.
   */
  function Store(keys: Keys, t: Table, rp: Bytes, sealed: Bytes, publicKey: Bytes,
                 creatable: seq<bool>, works: bool, names: bool): Outcome
    requires |creatable| == |t.creds| && |rp| == RP_HASH_LEN
  {
    var cred := keys.open(sealed, rp);
    if publicKey == [] || cred.None? then Outcome(t, InvalidParameter)
    else
      var same := FirstMarked(UserMarks(keys, t.creds, rp, cred.value.userId), 0);
      var slot := if same.Some? then same else FirstMarked(FreeMarks(t.creds, creatable), 0);
      if slot.None? || !works then Outcome(t, StoreFull)
      else
        var creds := t.creds[slot.value := Some(NewRecord(keys, t.creds[slot.value], rp, sealed, publicKey))];
        if same.Some? then Outcome(t.(creds := creds), Ok)
        else
          var rps := Enter(t.rps, rp, names);
          if rps.None? then Outcome(t.(creds := creds), Corrupt) else Outcome(Table(creds, rps.value), Ok)
  }

  function Delete(keys: Keys, t: Table, id: Bytes, works: bool): Outcome {
    var slot := FirstMarked(IdMarks(keys, t.creds, id), 0);
    if slot.None? then Outcome(t, NoCredentials)
    else
      var rp := RpHash(t.creds[slot.value].value);
      if rp.None? || !works then Outcome(t, NotAllowed)
      else Outcome(Table(t.creds[slot.value := None], Leave(t.rps, rp.value)), Ok)
  }

  /** Sealing the new form may fail, and so may writing it. */
  function UpdateUser(keys: Keys, t: Table, id: Bytes, userId: Bytes, sealed: Option<Bytes>, works: bool): Outcome {
    var slot := FirstMarked(IdMarks(keys, t.creds, id), 0);
    if slot.None? then Outcome(t, NoCredentials)
    else
      var record := t.creds[slot.value].value;
      var rp := RpHash(record);
      if rp.None? || Load(keys, record, rp.value).None? then Outcome(t, NotAllowed)
      else if Load(keys, record, rp.value).value.cred.userId != userId then Outcome(t, InvalidParameter)
      else if sealed.None? then Outcome(t, NotAllowed)
      else
        var updated := Update(keys, record, sealed.value);
        if updated.None? || !works then Outcome(t, NotAllowed)
        else Outcome(t.(creds := t.creds[slot.value := updated]), Ok)
  }

  // ---------- Agreement of table and index ----------

  function Tally(creds: seq<Option<Record>>, rp: Bytes): nat {
    if creds == [] then 0
    else Tally(creds[..|creds| - 1], rp) + (if Belongs(creds[|creds| - 1], rp) then 1 else 0)
  }

  predicate HasEntry(rps: seq<Option<RpRecord>>, rp: Bytes) {
    exists j :: 0 <= j < |rps| && Counts(rps[j], rp)
  }

  predicate CountsRight(t: Table) {
    forall j :: 0 <= j < |t.rps| && t.rps[j].Some? ==>
      0 < t.rps[j].value.count < BYTE_SPAN && t.rps[j].value.count == Tally(t.creds, t.rps[j].value.hash)
  }

  predicate OneEntryEach(rps: seq<Option<RpRecord>>) {
    forall j, k :: 0 <= j < k < |rps| && rps[j].Some? && rps[k].Some? ==> rps[j].value.hash != rps[k].value.hash
  }

  predicate EveryOneEntered(t: Table) {
    forall i :: 0 <= i < |t.creds| && t.creds[i].Some? ==>
      RpHash(t.creds[i].value).Some? && HasEntry(t.rps, RpHash(t.creds[i].value).value)
  }

  /** Each relying party with credentials has one record, no other has any, and the counts are right. */
  predicate IndexAgrees(t: Table) {
    Shaped(t) && CountsRight(t) && OneEntryEach(t.rps) && EveryOneEntered(t)
  }

  lemma {:induction false} TallyUpdate(creds: seq<Option<Record>>, i: nat, slot: Option<Record>, rp: Bytes)
    requires i < |creds|
    ensures Tally(creds[i := slot], rp) + (if Belongs(creds[i], rp) then 1 else 0) ==
            Tally(creds, rp) + (if Belongs(slot, rp) then 1 else 0)
    decreases |creds|
  {
    var last := |creds| - 1;
    var changed := creds[i := slot];
    if i == last {
      assert changed[..last] == creds[..last];
    } else {
      assert changed[..last] == creds[..last][i := slot];
      TallyUpdate(creds[..last], i, slot, rp);
    }
  }

  lemma {:induction false} TallyPositive(creds: seq<Option<Record>>, rp: Bytes)
    ensures Tally(creds, rp) > 0 <==> exists i :: 0 <= i < |creds| && Belongs(creds[i], rp)
    decreases |creds|
  {
    if creds != [] {
      var before := creds[..|creds| - 1];
      TallyPositive(before, rp);
      assert forall i :: 0 <= i < |before| ==> before[i] == creds[i];
    }
  }

  // ---------- There is always room in the index ----------

  lemma {:induction false} Pigeons(holes: seq<nat>, available: set<nat>)
    requires forall j :: 0 <= j < |holes| ==> holes[j] in available
    requires forall j, k :: 0 <= j < k < |holes| ==> holes[j] != holes[k]
    ensures |holes| <= |available|
    decreases |holes|
  {
    if holes != [] {
      var last := holes[|holes| - 1];
      Pigeons(holes[..|holes| - 1], available - {last});
    }
  }

  function Below(n: nat): set<nat> {
    if n == 0 then {} else Below(n - 1) + {n - 1}
  }

  lemma {:induction false} BelowIs(n: nat)
    ensures |Below(n)| == n && forall k: nat :: k in Below(n) <==> k < n
  {
    if n > 0 {
      BelowIs(n - 1);
    }
  }

  predicate HeldBy(t: Table, j: nat, i: nat) {
    j < |t.rps| && i < |t.creds| && t.rps[j].Some? && Belongs(t.creds[i], t.rps[j].value.hash)
  }

  /** Every index record points at a credential of its own. */
  lemma {:induction false} Holders(t: Table, n: nat) returns (holders: seq<nat>)
    requires CountsRight(t) && OneEntryEach(t.rps) && n <= |t.rps|
    requires forall j :: 0 <= j < n ==> t.rps[j].Some?
    ensures |holders| == n && forall j :: 0 <= j < n ==> HeldBy(t, j, holders[j])
  {
    if n == 0 {
      return [];
    }
    var before := Holders(t, n - 1);
    TallyPositive(t.creds, t.rps[n - 1].value.hash);
    var i :| 0 <= i < |t.creds| && Belongs(t.creds[i], t.rps[n - 1].value.hash);
    assert HeldBy(t, n - 1, i);
    return before + [i];
  }

  /** While a credential slot is free there is a free index slot too. */
  lemma RoomInIndex(t: Table, i: nat)
    requires IndexAgrees(t) && i < MAX_RESIDENT && t.creds[i].None?
    ensures FirstMarked(EmptyMarks(t.rps), 0).Some?
  {
    FirstMarkedIs(EmptyMarks(t.rps), 0);
    if FirstMarked(EmptyMarks(t.rps), 0).None? {
      forall j | 0 <= j < MAX_RESIDENT ensures t.rps[j].Some? {
        assert !EmptyMarks(t.rps)[j];
      }
      var holders := Holders(t, MAX_RESIDENT);
      forall j, k | 0 <= j < k < MAX_RESIDENT ensures holders[j] != holders[k] {
        assert HeldBy(t, j, holders[j]) && HeldBy(t, k, holders[k]);
      }
      var slots: nat := |t.creds|;
      BelowIs(slots);
      forall j | 0 <= j < MAX_RESIDENT ensures holders[j] in Below(slots) - {i} {
        assert HeldBy(t, j, holders[j]);
      }
      Pigeons(holders, Below(slots) - {i});
    }
  }

  // ---------- What the operations keep ----------

  lemma UnenteredHasNone(t: Table, rp: Bytes)
    requires IndexAgrees(t) && !HasEntry(t.rps, rp)
    ensures Tally(t.creds, rp) == 0
  {
    TallyPositive(t.creds, rp);
  }

  lemma KnownIff(rps: seq<Option<RpRecord>>, rp: Bytes)
    ensures FirstMarked(RpMarks(rps, rp), 0).Some? <==> HasEntry(rps, rp)
  {
    var marks := RpMarks(rps, rp);
    FirstMarkedIs(marks, 0);
    if HasEntry(rps, rp) {
      var j :| 0 <= j < |rps| && Counts(rps[j], rp);
      assert marks[j];
    }
  }

  /** A new credential is entered, and the index stays right exactly when the party had fewer than 255 before. */
  lemma EnterKeeps(t: Table, i: nat, record: Record, rp: Bytes, names: bool)
    requires names || HasEntry(t.rps, rp)
    requires IndexAgrees(t) && i < MAX_RESIDENT && t.creds[i].None? && MatchesRp(record, rp)
    ensures var (creds, rps) := (t.creds[i := Some(record)], Enter(t.rps, rp, names));
            rps.Some? && (IndexAgrees(Table(creds, rps.value)) <==> Tally(t.creds, rp) < BYTE_SPAN - 1)
  {
    hide Tally, RpHash, EmptyMarks, RpMarks;
    var creds := t.creds[i := Some(record)];
    KnownIff(t.rps, rp);
    RoomInIndex(t, i);
    MarkedPlaces(t.rps, rp);
    TallyUpdate(t.creds, i, Some(record), rp);
    var known := FirstMarked(RpMarks(t.rps, rp), 0);
    var j := if known.Some? then known.value else FirstMarked(EmptyMarks(t.rps), 0).value;
    var rps := Enter(t.rps, rp, names).value;
    if known.None? {
      UnenteredHasNone(t, rp);
    }
    OtherCountsStay(t, i, Some(record), rps, j, rp);
    if Tally(creds, rp) < BYTE_SPAN {
      EntriesCover(t, i, record, rps, j, rp);
    } else {
      assert rps[j].Some? && rps[j].value.count != Tally(creds, rp);
    }
  }

  /** Changing one slot between holding and not holding a credential of `rp` leaves the other counts right. */
  lemma OtherCountsStay(t: Table, i: nat, slot: Option<Record>, rps: seq<Option<RpRecord>>, j: nat, rp: Bytes)
    requires IndexAgrees(t) && i < MAX_RESIDENT && j < MAX_RESIDENT
    requires t.creds[i].Some? ==> MatchesRp(t.creds[i].value, rp)
    requires slot.Some? ==> MatchesRp(slot.value, rp)
    requires |rps| == MAX_RESIDENT && forall k :: 0 <= k < MAX_RESIDENT && k != j ==> rps[k] == t.rps[k]
    requires forall k :: 0 <= k < MAX_RESIDENT && k != j && t.rps[k].Some? ==> t.rps[k].value.hash != rp
    ensures forall k :: 0 <= k < MAX_RESIDENT && k != j && rps[k].Some? ==>
      0 < rps[k].value.count < BYTE_SPAN && rps[k].value.count == Tally(t.creds[i := slot], rps[k].value.hash)
  {
    forall k | 0 <= k < MAX_RESIDENT && k != j && rps[k].Some?
      ensures 0 < rps[k].value.count < BYTE_SPAN && rps[k].value.count == Tally(t.creds[i := slot], rps[k].value.hash)
    {
      TallyUpdate(t.creds, i, slot, rps[k].value.hash);
    }
  }

  lemma EntriesCover(t: Table, i: nat, record: Record, rps: seq<Option<RpRecord>>, j: nat, rp: Bytes)
    requires IndexAgrees(t) && i < MAX_RESIDENT && j < MAX_RESIDENT && MatchesRp(record, rp)
    requires |rps| == MAX_RESIDENT && forall k :: 0 <= k < MAX_RESIDENT && k != j ==> rps[k] == t.rps[k]
    requires Counts(rps[j], rp) && (t.rps[j].Some? ==> t.rps[j].value.hash == rp)
    ensures EveryOneEntered(Table(t.creds[i := Some(record)], rps))
  {
    var creds := t.creds[i := Some(record)];
    forall n | 0 <= n < |creds| && creds[n].Some?
      ensures RpHash(creds[n].value).Some? && HasEntry(rps, RpHash(creds[n].value).value)
    {
      if n != i {
        var k :| 0 <= k < |t.rps| && Counts(t.rps[k], RpHash(t.creds[n].value).value);
        assert Counts(rps[k], RpHash(creds[n].value).value);
      }
    }
  }

  lemma MarkedPlaces(rps: seq<Option<RpRecord>>, rp: Bytes)
    ensures var known := FirstMarked(RpMarks(rps, rp), 0); known.Some? ==> Counts(rps[known.value], rp)
    ensures var empty := FirstMarked(EmptyMarks(rps), 0); empty.Some? ==> rps[empty.value].None?
  {
  }

  /** Deleting a credential takes it off the count; the last one takes the record with it. */
  lemma LeaveKeeps(t: Table, i: nat, rp: Bytes)
    requires IndexAgrees(t) && i < MAX_RESIDENT && Belongs(t.creds[i], rp)
    ensures IndexAgrees(Table(t.creds[i := None], Leave(t.rps, rp)))
  {
    hide Tally, RpMarks;
    var u := Table(t.creds[i := None], Leave(t.rps, rp));
    KnownIff(t.rps, rp);
    MarkedPlaces(t.rps, rp);
    TallyUpdate(t.creds, i, None, rp);
    var j := FirstMarked(RpMarks(t.rps, rp), 0).value;
    OtherCountsStay(t, i, None, u.rps, j, rp);
    EntriesRemain(t, i, u.rps, j, rp);
  }

  lemma EntriesRemain(t: Table, i: nat, rps: seq<Option<RpRecord>>, j: nat, rp: Bytes)
    requires IndexAgrees(t) && i < MAX_RESIDENT && j < MAX_RESIDENT && Counts(t.rps[j], rp)
    requires |rps| == MAX_RESIDENT && forall k :: 0 <= k < MAX_RESIDENT && k != j ==> rps[k] == t.rps[k]
    requires Tally(t.creds[i := None], rp) > 0 ==> Counts(rps[j], rp)
    ensures EveryOneEntered(Table(t.creds[i := None], rps))
  {
    hide Tally;
    var creds := t.creds[i := None];
    TallyPositive(creds, rp);
    forall n | 0 <= n < |creds| && creds[n].Some?
      ensures RpHash(creds[n].value).Some? && HasEntry(rps, RpHash(creds[n].value).value)
    {
      var hash := RpHash(t.creds[n].value).value;
      var k :| 0 <= k < |t.rps| && Counts(t.rps[k], hash);
      if hash == rp {
        assert Belongs(creds[n], rp);
        assert Counts(rps[j], hash);
      } else {
        assert Counts(rps[k], hash);
      }
    }
  }

  /** Replacing a credential by another of the same relying party leaves the index as right as it was. */
  lemma ReplaceKeeps(t: Table, i: nat, record: Record, rp: Bytes)
    requires IndexAgrees(t) && i < MAX_RESIDENT && Belongs(t.creds[i], rp) && MatchesRp(record, rp)
    ensures IndexAgrees(t.(creds := t.creds[i := Some(record)]))
  {
    forall hash ensures Tally(t.creds[i := Some(record)], hash) == Tally(t.creds, hash) {
      TallyUpdate(t.creds, i, Some(record), hash);
    }
  }

  lemma NewRecordBelongs(keys: Keys, previous: Option<Record>, rp: Bytes, sealed: Bytes, publicKey: Bytes)
    requires |rp| == RP_HASH_LEN
    ensures MatchesRp(NewRecord(keys, previous, rp, sealed, publicKey), rp)
  {
    PrefixedParts(rp, keys.derive(sealed), sealed);
  }

  /** A credential that can be written, for a new user of the relying party. */
  predicate Adds(keys: Keys, t: Table, rp: Bytes, sealed: Bytes, publicKey: Bytes, creatable: seq<bool>, works: bool)
    requires |creatable| == |t.creds|
  {
    publicKey != [] && keys.open(sealed, rp).Some? && works &&
    (forall i :: 0 <= i < |t.creds| ==> !SameUser(keys, t.creds[i], rp, keys.open(sealed, rp).value.userId)) &&
    exists i :: 0 <= i < |t.creds| && t.creds[i].None? && creatable[i]
  }

  /** It would be the 256th of its relying party. */
  predicate Outgrows(keys: Keys, t: Table, rp: Bytes, sealed: Bytes, publicKey: Bytes, creatable: seq<bool>,
                     works: bool)
    requires |creatable| == |t.creds|
  {
    Adds(keys, t, rp, sealed, publicKey, creatable, works) && Tally(t.creds, rp) == BYTE_SPAN - 1
  }

  /** It would be the first of a relying party whose name cannot be sealed. */
  predicate Unnamed(keys: Keys, t: Table, rp: Bytes, sealed: Bytes, publicKey: Bytes,
                    creatable: seq<bool>, works: bool, names: bool)
    requires |creatable| == |t.creds|
  {
    Adds(keys, t, rp, sealed, publicKey, creatable, works) && !names && !HasEntry(t.rps, rp)
  }

  /**
   A store keeps the index right unless it gives a relying party its 256th credential, the count
   being one byte, or fails to seal a new party's name, which leaves the credential without an
   entry. It never fails for want of room in the index, and any other failure changes nothing.
   */
  lemma StoreKeepsIndexIff(keys: Keys, t: Table, rp: Bytes, sealed: Bytes, publicKey: Bytes,
                           creatable: seq<bool>, works: bool, names: bool)
    requires IndexAgrees(t) && |creatable| == |t.creds| && |rp| == RP_HASH_LEN
    ensures var r := Store(keys, t, rp, sealed, publicKey, creatable, works, names);
            (r.status == Corrupt <==> Unnamed(keys, t, rp, sealed, publicKey, creatable, works, names)) &&
            (r.status != Ok && r.status != Corrupt ==> r.table == t) &&
            (IndexAgrees(r.table) <==>
               !Outgrows(keys, t, rp, sealed, publicKey, creatable, works) &&
               !Unnamed(keys, t, rp, sealed, publicKey, creatable, works, names))
  {
    hide Tally, IndexAgrees;
    var r := Store(keys, t, rp, sealed, publicKey, creatable, works, names);
    TallyFits(t, rp);
    ShapedBoth(t);
    var cred := keys.open(sealed, rp);
    if publicKey != [] && cred.Some? && works {
      var same := FirstMarked(UserMarks(keys, t.creds, rp, cred.value.userId), 0);
      var free := FirstMarked(FreeMarks(t.creds, creatable), 0);
      SearchesAre(keys, t, rp, cred.value.userId, creatable);
      if same.Some? {
        NewRecordBelongs(keys, t.creds[same.value], rp, sealed, publicKey);
        ReplaceKeeps(t, same.value, NewRecord(keys, t.creds[same.value], rp, sealed, publicKey), rp);
      } else if free.Some? {
        NewRecordBelongs(keys, t.creds[free.value], rp, sealed, publicKey);
        var record := NewRecord(keys, t.creds[free.value], rp, sealed, publicKey);
        KnownIff(t.rps, rp);
        if names || HasEntry(t.rps, rp) {
          EnterKeeps(t, free.value, record, rp, names);
        } else {
          LeftOut(t, free.value, record, rp);
        }
      }
    }
  }

  lemma ShapedBoth(t: Table)
    requires IndexAgrees(t)
    ensures Shaped(t)
  {
  }

  /** Without an entry the new credential is in no index, and its relying party had no others. */
  lemma LeftOut(t: Table, i: nat, record: Record, rp: Bytes)
    requires IndexAgrees(t) && i < MAX_RESIDENT && MatchesRp(record, rp) && !HasEntry(t.rps, rp)
    ensures !IndexAgrees(t.(creds := t.creds[i := Some(record)])) && Tally(t.creds, rp) == 0
  {
    UnenteredHasNone(t, rp);
    var creds := t.creds[i := Some(record)];
    assert creds[i] == Some(record);
  }

  lemma SearchesAre(keys: Keys, t: Table, rp: Bytes, userId: Bytes, creatable: seq<bool>)
    requires |creatable| == |t.creds|
    ensures FirstMarked(UserMarks(keys, t.creds, rp, userId), 0).None? <==>
      forall i :: 0 <= i < |t.creds| ==> !SameUser(keys, t.creds[i], rp, userId)
    ensures FirstMarked(FreeMarks(t.creds, creatable), 0).Some? <==>
      exists i :: 0 <= i < |t.creds| && t.creds[i].None? && creatable[i]
  {
    var user, free := UserMarks(keys, t.creds, rp, userId), FreeMarks(t.creds, creatable);
    FirstMarkedIs(user, 0);
    FirstMarkedIs(free, 0);
    forall i | 0 <= i < |t.creds| ensures user[i] <==> SameUser(keys, t.creds[i], rp, userId) {
    }
    forall i | 0 <= i < |t.creds| ensures free[i] <==> t.creds[i].None? && creatable[i] {
    }
  }

  lemma TallyFits(t: Table, rp: Bytes)
    requires IndexAgrees(t)
    ensures Tally(t.creds, rp) < BYTE_SPAN
  {
    if HasEntry(t.rps, rp) {
      var j :| 0 <= j < |t.rps| && Counts(t.rps[j], rp);
    } else {
      UnenteredHasNone(t, rp);
    }
  }

  lemma DeleteKeepsIndex(keys: Keys, t: Table, id: Bytes, works: bool)
    requires IndexAgrees(t)
    ensures IndexAgrees(Delete(keys, t, id, works).table)
  {
    var slot := FirstMarked(IdMarks(keys, t.creds, id), 0);
    if slot.Some? && RpHash(t.creds[slot.value].value).Some? {
      LeaveKeeps(t, slot.value, RpHash(t.creds[slot.value].value).value);
    }
  }

  // ---------- Whole runs ----------

  /** Derives the public key of a seed on a curve. */
  type KeyOf = (Bytes, nat) -> Bytes

  /**
   Requests that change the table. A credential is sealed for its relying party with the
   curve of the request; an update seals the same user and curve again.
   */
  datatype Event =
    | MakeCredential(rp: Bytes, cred: Cred, sealed: Bytes, creatable: seq<bool>, works: bool, names: bool)
    | UpdateUserInformation(id: Bytes, userId: Bytes, user: Bytes, resealed: Option<Bytes>, works: bool)
    | DeleteCredential(id: Bytes, works: bool)

  function Perform(keys: Keys, keyOf: KeyOf, t: Table, e: Event): Outcome
    requires e.MakeCredential? ==> |e.creatable| == |t.creds| && |e.rp| == RP_HASH_LEN
  {
    match e
    case MakeCredential(rp, cred, sealed, creatable, works, names) =>
      Store(keys, t, rp, sealed, keyOf(keys.derive(sealed), cred.curve), creatable, works, names)
    case UpdateUserInformation(id, userId, _, sealed, works) => UpdateUser(keys, t, id, userId, sealed, works)
    case DeleteCredential(id, works) => Delete(keys, t, id, works)
  }

  /**
   What sealing guarantees, that no relying party outgrows its one-byte count, and that a new one's
   name is sealed.
   */
  predicate Enabled(keys: Keys, keyOf: KeyOf, t: Table, e: Event) {
    match e
    case MakeCredential(rp, cred, sealed, creatable, works, names) =>
      |creatable| == |t.creds| && |rp| == RP_HASH_LEN && keys.open(sealed, rp) == Some(cred) &&
      !Outgrows(keys, t, rp, sealed, keyOf(keys.derive(sealed), cred.curve), creatable, works) &&
      !Unnamed(keys, t, rp, sealed, keyOf(keys.derive(sealed), cred.curve), creatable, works, names)
    case UpdateUserInformation(id, _, user, sealed, _) =>
      var slot := FirstMarked(IdMarks(keys, t.creds, id), 0);
      slot.Some? && Loads(keys, t.creds[slot.value].value) && sealed.Some? ==>
        Reseals(keys, t.creds[slot.value].value, user, sealed.value)
    case DeleteCredential(_, _) => true
  }

  predicate Loads(keys: Keys, r: Record) {
    RpHash(r).Some? && Load(keys, r, RpHash(r).value).Some?
  }

  predicate Reseals(keys: Keys, r: Record, user: Bytes, sealed: Bytes)
    requires Loads(keys, r)
  {
    var rp := RpHash(r).value;
    keys.open(sealed, rp) == Some(Load(keys, r, rp).value.cred.(user := user))
  }

  /** The cached public key is the one assertions sign with. */
  predicate CacheAgrees(keys: Keys, keyOf: KeyOf, r: Record)
    requires Loads(keys, r)
  {
    var l := Load(keys, r, RpHash(r).value).value;
    r.Container? ==> UsesStableKeys(r.clientId) && r.publicKey == Some(keyOf(Seed(l), l.cred.curve))
  }

  predicate RecordKept(keys: Keys, keyOf: KeyOf, r: Record) {
    Loads(keys, r) && CacheAgrees(keys, keyOf, r)
  }

  predicate RecordsKept(keys: Keys, keyOf: KeyOf, creds: seq<Option<Record>>) {
    forall i :: 0 <= i < |creds| && creds[i].Some? ==> RecordKept(keys, keyOf, creds[i].value)
  }

  predicate TableKept(keys: Keys, keyOf: KeyOf, t: Table) {
    IndexAgrees(t) && RecordsKept(keys, keyOf, t.creds)
  }

  lemma NewRecordKept(keys: Keys, keyOf: KeyOf, previous: Option<Record>, rp: Bytes, cred: Cred, sealed: Bytes)
    requires |rp| == RP_HASH_LEN && keys.open(sealed, rp) == Some(cred)
    ensures RecordKept(keys, keyOf, NewRecord(keys, previous, rp, sealed, keyOf(keys.derive(sealed), cred.curve)))
  {
    PrefixedParts(rp, keys.derive(sealed), sealed);
  }

  lemma UpdatedRecordKept(keys: Keys, keyOf: KeyOf, r: Record, user: Bytes, sealed: Bytes)
    requires RecordKept(keys, keyOf, r) && Reseals(keys, r, user, sealed) && ResidentIdOf(keys, r).Some?
    ensures Update(keys, r, sealed).Some? && RecordKept(keys, keyOf, Update(keys, r, sealed).value)
    ensures MatchesRp(Update(keys, r, sealed).value, RpHash(r).value)
  {
    UpdateKeepsIdentity(keys, r, RpHash(r).value, sealed);
  }

  lemma EventKeeps(keys: Keys, keyOf: KeyOf, t: Table, e: Event)
    requires TableKept(keys, keyOf, t) && Enabled(keys, keyOf, t, e)
    ensures TableKept(keys, keyOf, Perform(keys, keyOf, t, e).table)
  {
    hide RecordKept, CountsRight, OneEntryEach, EveryOneEntered, Loads, Load, Update, Enter, Leave, Tally;
    match e
    case MakeCredential(rp, cred, sealed, creatable, works, names) =>
      StoreKeepsIndexIff(keys, t, rp, sealed, keyOf(keys.derive(sealed), cred.curve), creatable, works, names);
      NewRecordKept(keys, keyOf, None, rp, cred, sealed);
      forall previous
        ensures RecordKept(keys, keyOf,
          NewRecord(keys, previous, rp, sealed, keyOf(keys.derive(sealed), cred.curve)))
      {
        NewRecordKept(keys, keyOf, previous, rp, cred, sealed);
      }
    case UpdateUserInformation(_, _, _, _, _) => UpdateKeeps(keys, keyOf, t, e);
    case DeleteCredential(id, works) => DeleteKeepsIndex(keys, t, id, works);
  }

  lemma UpdateKeeps(keys: Keys, keyOf: KeyOf, t: Table, e: Event)
    requires e.UpdateUserInformation? && TableKept(keys, keyOf, t) && Enabled(keys, keyOf, t, e)
    ensures TableKept(keys, keyOf, UpdateUser(keys, t, e.id, e.userId, e.resealed, e.works).table)
  {
    hide Tally, Update;
    var slot := FirstMarked(IdMarks(keys, t.creds, e.id), 0);
    if slot.Some? && e.resealed.Some? {
      var r := t.creds[slot.value].value;
      UpdatedRecordKept(keys, keyOf, r, e.user, e.resealed.value);
      ReplaceKeeps(t, slot.value, Update(keys, r, e.resealed.value).value, RpHash(r).value);
    }
  }

  function Play(keys: Keys, keyOf: KeyOf, t: Table, events: seq<Event>): (u: Table)
    requires Shaped(t) && forall i :: 0 <= i < |events| && events[i].MakeCredential? ==>
      |events[i].creatable| == MAX_RESIDENT && |events[i].rp| == RP_HASH_LEN
    ensures Shaped(u)
  {
    if events == [] then t
    else Perform(keys, keyOf, Play(keys, keyOf, t, events[..|events| - 1]), events[|events| - 1]).table
  }

  ghost predicate Run(keys: Keys, keyOf: KeyOf, t: Table, events: seq<Event>)
    requires Shaped(t) && forall i :: 0 <= i < |events| && events[i].MakeCredential? ==>
      |events[i].creatable| == MAX_RESIDENT && |events[i].rp| == RP_HASH_LEN
  {
    events == [] ||
    (Run(keys, keyOf, t, events[..|events| - 1]) &&
     Enabled(keys, keyOf, Play(keys, keyOf, t, events[..|events| - 1]), events[|events| - 1]))
  }

  /**
   In every run of registrations, re-registrations, updates and deletions, the index agrees
   with the table, every credential loads, and every cached public key is the signing key.
   */
  lemma {:induction false} RunKeeps(keys: Keys, keyOf: KeyOf, t: Table, events: seq<Event>)
    requires TableKept(keys, keyOf, t)
    requires forall i :: 0 <= i < |events| && events[i].MakeCredential? ==>
      |events[i].creatable| == MAX_RESIDENT && |events[i].rp| == RP_HASH_LEN
    requires Run(keys, keyOf, t, events)
    ensures TableKept(keys, keyOf, Play(keys, keyOf, t, events))
    decreases |events|
  {
    hide Perform, Enabled, RecordsKept, CountsRight, OneEntryEach, EveryOneEntered;
    if events != [] {
      RunKeeps(keys, keyOf, t, events[..|events| - 1]);
      EventKeeps(keys, keyOf, Play(keys, keyOf, t, events[..|events| - 1]), events[|events| - 1]);
    }
  }
}
