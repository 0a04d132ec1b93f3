/**
 Whatever is in flash, damaged or not: which manifest a container is taken to have, when it can be created
 or updated, and what a read answers.
 */
module ContainerSelection {
  import opened Basics
  import opened Flash
  import opened ResidentContainer

  // ---------- Which manifests are accepted ----------

  /** A record that is not in either of the two places its type has in this slot. */
  predicate Misplaced(slot: nat, d: Descriptor) {
    !(1 <= d.objectType <= 4) || d.recordId !in {RecordFid(slot, 0, d.objectType), RecordFid(slot, 1, d.objectType)}
  }

  /** No record, or one of another size, where the descriptor says there is one. */
  predicate Lost(files: Files, d: Descriptor) {
    var file: Option<File> := At(files, d.recordId);
    match file
    case Some(Record(_, _, data)) => |data| != d.storedSize
    case _ => true
  }

  /**
   A manifest in one of a slot's two places is accepted unless it is another slot's, lists nothing, lists a
   type twice, misplaces a record or has lost one.
   */
  lemma RejectedIff(files: Files, slot: nat, k: nat, m: Manifest)
    requires At(files, ManifestFid(slot, k)) == Some(ManifestFile(m))
    ensures ParseSlot(files, slot, k) == None <==>
      m.containerId != slot || m.objects == [] ||
      (exists i, j :: 0 <= i < j < |m.objects| && m.objects[i].objectType == m.objects[j].objectType) ||
      exists d :: d in m.objects && (Misplaced(slot, d) || Lost(files, d))
    ensures ParseSlot(files, slot, k) in {None, Some(m)}
  {
    forall d | d in m.objects ensures Misplaced(slot, d) <==> !RecordIdValid(slot, d) {
    }
    forall d | d in m.objects ensures Lost(files, d) <==> !HeaderAccepts(files, d) {
      LostIs(files, d);
    }
    if ParseSlot(files, slot, k) == None && m.containerId == slot && m.objects != [] {
      if i :| 0 <= i < |m.objects| && (Misplaced(slot, m.objects[i]) || Lost(files, m.objects[i])) {
        assert m.objects[i] in m.objects;
      }
    }
  }

  lemma LostIs(files: Files, d: Descriptor)
    ensures Lost(files, d) <==> !HeaderAccepts(files, d)
  {
  }

  /** What is not a manifest, and what does not authenticate as one, is not accepted. */
  lemma OnlyManifests(files: Files, slot: nat, k: nat)
    ensures ParseSlot(files, slot, k).Some? ==>
      At(files, ManifestFid(slot, k)) == Some(ManifestFile(ParseSlot(files, slot, k).value))
  {
  }

  /** The objects of an accepted manifest are at most four, each in a record that is there. */
  lemma AcceptedIsSmall(files: Files, slot: nat, k: nat)
    requires ParseSlot(files, slot, k).Some?
    ensures var m := ParseSlot(files, slot, k).value;
            1 <= |m.objects| <= 4 && forall d :: d in m.objects ==> d.recordId in files
  {
    var m := ParseSlot(files, slot, k).value;
    var types := seq(|m.objects|, i requires 0 <= i < |m.objects| => m.objects[i].objectType);
    Distinct(types, {1, 2, 3, 4});
  }

  lemma {:induction false} Distinct(types: seq<nat>, from: set<nat>)
    requires forall i :: 0 <= i < |types| ==> types[i] in from
    requires forall i, j :: 0 <= i < j < |types| ==> types[i] != types[j]
    ensures |types| <= |from|
    decreases |types|
  {
    if types != [] {
      Distinct(types[..|types| - 1], from - {types[|types| - 1]});
    }
  }

  // ---------- Which one is chosen ----------

  /** A manifest file that holds anything. */
  predicate Remains(files: Files, slot: nat) {
    exists k :: 0 <= k < 2 && At(files, ManifestFid(slot, k)) !in {None, Some(Raw([]))}
  }

  /**
   The newer of two accepted manifests is taken, or the only one. Two of one generation, and remains that
   are not accepted, are damage; nothing at all is a container that is not there.
   */
  lemma LoadIs(files: Files, slot: nat)
    ensures var (a, b) := (ParseSlot(files, slot, 0), ParseSlot(files, slot, 1));
            (forall m, c :: Load(files, slot) == Loaded(m, c) <==>
               c < 2 && ParseSlot(files, slot, c) == Some(m) &&
               (ParseSlot(files, slot, Other(c)).Some? ==>
                  ParseSlot(files, slot, Other(c)).value.generation < m.generation)) &&
            (Load(files, slot) == Damaged <==>
               if a.Some? && b.Some? then a.value.generation == b.value.generation
               else a.None? && b.None? && Remains(files, slot)) &&
            (Load(files, slot) == Missing <==> a.None? && b.None? && !Remains(files, slot))
  {
    hide ParseSlot;
    RemainsIff(files, slot);
    OnlyManifests(files, slot, 0);
    OnlyManifests(files, slot, 1);
  }

  lemma RemainsIff(files: Files, slot: nat)
    ensures Remains(files, slot) <==> HasData(files, ManifestFid(slot, 0)) || HasData(files, ManifestFid(slot, 1))
  {
    if HasData(files, ManifestFid(slot, 0)) {
      assert At(files, ManifestFid(slot, 0)) !in {None, Some(Raw([]))};
    }
    if HasData(files, ManifestFid(slot, 1)) {
      assert At(files, ManifestFid(slot, 1)) !in {None, Some(Raw([]))};
    }
  }

  // ---------- Records that open ----------

  /** The record opens: it was sealed for this slot and this descriptor. */
  predicate OpensTo(files: Files, slot: nat, d: Descriptor, data: Bytes) {
    At(files, d.recordId) == Some(Record(slot, d, data))
  }

  ghost predicate Complete(files: Files, slot: nat, m: Manifest) {
    forall d :: d in m.objects ==> exists data: Bytes :: OpensTo(files, slot, d, data) && |data| == d.logicalSize
  }

  lemma UnsealIff(files: Files, slot: nat, d: Descriptor, data: Bytes)
    ensures Unseal(files, slot, d) == Some(data) <==> OpensTo(files, slot, d, data)
  {
  }

  /** A manifest validates exactly when every object it lists opens to its full length. */
  lemma ValidatesIff(files: Files, slot: nat, m: Manifest)
    ensures Validates(files, slot, m) <==> Complete(files, slot, m)
  {
    hide Unseal, OpensTo;
    forall d, data: Bytes ensures Unseal(files, slot, d) == Some(data) <==> OpensTo(files, slot, d, data) {
      UnsealIff(files, slot, d, data);
    }
    if Validates(files, slot, m) {
      forall d | d in m.objects
        ensures exists data: Bytes :: OpensTo(files, slot, d, data) && |data| == d.logicalSize
      {
        assert OpensTo(files, slot, d, Unseal(files, slot, d).value);
      }
    }
    if Complete(files, slot, m) {
      forall i | 0 <= i < |m.objects|
        ensures Unseal(files, slot, m.objects[i]).Some?
        ensures |Unseal(files, slot, m.objects[i]).value| == m.objects[i].logicalSize
      {
        assert m.objects[i] in m.objects;
        var data: Bytes :| OpensTo(files, slot, m.objects[i], data) && |data| == m.objects[i].logicalSize;
      }
    }
  }

  /** Without manifests, everything left in the places of the slot's records is a record. */
  predicate CleanlyEmpty(files: Files, slot: nat) {
    ManifestFid(slot, 0) !in files && ManifestFid(slot, 1) !in files &&
    forall k, t :: 0 <= k < 2 && 1 <= t <= 4 && RecordFid(slot, k, t) in files ==> files[RecordFid(slot, k, t)].Record?
  }

  /** A slot can be given a credential exactly when it is cleanly empty or its container is complete. */
  lemma CreatableIff(files: Files, slot: nat)
    ensures CanCreate(files, slot) <==>
      CleanlyEmpty(files, slot) ||
      exists m, c :: Load(files, slot) == Loaded(m, c) && Complete(files, slot, m)
  {
    hide Load, Validates, Complete;
    if Load(files, slot).Loaded? {
      var m, c := Load(files, slot).manifest, Load(files, slot).half;
      assert Load(files, slot) == Loaded(m, c);
      ValidatesIff(files, slot, m);
      LoadedHasFile(files, slot);
    }
  }

  lemma LoadedHasFile(files: Files, slot: nat)
    requires Load(files, slot).Loaded?
    ensures ManifestFid(slot, 0) in files || ManifestFid(slot, 1) in files
  {
  }

  /**
   An update builds on the manifest taken, if that is complete; else on the other, if that is; on nothing,
   where the slot is cleanly empty; and is refused in every other case.
   */
  lemma ChooseIs(files: Files, slot: nat)
    ensures forall m, c :: Choose(files, slot) == Base(m, c) <==>
      (Load(files, slot) == Loaded(m, c) && Complete(files, slot, m)) ||
      (exists n, b :: c == Other(b) && Load(files, slot) == Loaded(n, b) && !Complete(files, slot, n) &&
         ParseSlot(files, slot, c) == Some(m) && Complete(files, slot, m))
    ensures Choose(files, slot) == Fresh <==> Load(files, slot) == Missing && CleanlyEmpty(files, slot)
    ensures Choose(files, slot).Refused? ==>
      Choose(files, slot).status == if Load(files, slot).Loaded? then Unreadable else WrongData
  {
    hide Load, Validates, Complete, ParseSlot, CanCreate, CleanlyEmpty;
    CreatableIff(files, slot);
    forall m ensures Validates(files, slot, m) <==> Complete(files, slot, m) {
      ValidatesIff(files, slot, m);
    }
    if Load(files, slot).Loaded? {
      var n, b := Load(files, slot).manifest, Load(files, slot).half;
      assert Load(files, slot) == Loaded(n, b);
    }
  }

  // ---------- Refusals ----------

  /** Nothing is written where an update is refused outright. */
  lemma UpdateRefusal(files: Files, slot: nat, writes: seq<Write>)
    ensures var (plan, choice) := (UpdatePlan(files, slot, writes), Choose(files, slot));
            (writes == [] || |writes| > 16 ==> plan == Plan([], NullParam)) &&
            (0 < |writes| <= 16 && choice.Refused? ==> plan == Plan([], choice.status)) &&
            (0 < |writes| <= 16 && choice.Base? &&
             (choice.manifest.generation == UINT32_MAX || choice.manifest.extensionSize != 0) ==>
               plan == Plan([], WrongData))
  {
    hide Choose, Commit;
  }

  /** A write of no known type, of an object kept in the manifest, or of a type written before. */
  predicate BadWrite(writes: seq<Write>, k: nat)
    requires k < |writes|
  {
    !(1 <= writes[k].objectType <= 4) || writes[k].inline ||
    exists j :: 0 <= j < k && writes[j].objectType == writes[k].objectType
  }

  /** The object has been written as often as can be counted. */
  predicate WornOut(objects: seq<Descriptor>, objectType: nat) {
    exists i :: 0 <= i < |objects| && objects[i].objectType == objectType && objects[i].generation == UINT32_MAX
  }

  predicate DistinctTypes(objects: seq<Descriptor>) {
    forall i, j :: 0 <= i < j < |objects| ==> objects[i].objectType != objects[j].objectType
  }

  lemma {:induction false} BadWriteStops(files: Files, slot: nat, target: nat, objects: seq<Descriptor>,
                                         writes: seq<Write>, i: nat, k: nat)
    requires i <= k < |writes| && BadWrite(writes, k)
    ensures WriteRecords(files, slot, target, objects, writes, i).status in {WrongData, NoMemory}
    decreases k - i
  {
    hide Replace, Find, RecordFid;
    if !WriteRefused(writes, i) {
      var w := writes[i];
      var at := Find(objects, w.objectType);
      if !(at < |objects| && objects[at].generation == UINT32_MAX) {
        var d := NewDescriptor(slot, target, w, if at < |objects| then objects[at].generation + 1 else 1);
        var objects' := if at < |objects| then objects[at := d] else objects + [d];
        BadWriteStops(files[d.recordId := Record(slot, d, w.data)], slot, target, objects', writes, i + 1, k);
      }
    }
  }

  lemma {:induction false} WornOutStops(files: Files, slot: nat, target: nat, objects: seq<Descriptor>,
                                        writes: seq<Write>, i: nat, k: nat)
    requires i <= k < |writes| && DistinctTypes(objects) && WornOut(objects, writes[k].objectType)
    requires forall j :: i <= j < k ==> writes[j].objectType != writes[k].objectType
    ensures WriteRecords(files, slot, target, objects, writes, i).status in {WrongData, NoMemory}
    decreases k - i
  {
    hide Replace, RecordFid, WriteRefused, Find;
    var w := writes[i];
    var at := Find(objects, w.objectType);
    FindIs(objects, w.objectType);
    var n :| 0 <= n < |objects| && objects[n].objectType == writes[k].objectType &&
      objects[n].generation == UINT32_MAX;
    assert objects[n] in objects;
    if i < k && !WriteRefused(writes, i) && !(at < |objects| && objects[at].generation == UINT32_MAX) {
      TypesAreValid(writes, i);
      var d := NewDescriptor(slot, target, w, if at < |objects| then objects[at].generation + 1 else 1);
      var objects' := if at < |objects| then objects[at := d] else objects + [d];
      assert forall j :: 0 <= j < |objects| && j != at ==> objects[j] in objects;
      assert objects'[n] == objects[n];
      WornOutStops(files[d.recordId := Record(slot, d, w.data)], slot, target, objects', writes, i + 1, k);
    }
  }

  lemma TypesAreValid(writes: seq<Write>, i: nat)
    requires i < |writes| && !WriteRefused(writes, i)
    ensures TypeValid(writes[i].objectType)
  {
  }

  /** An update with a bad write, or of an object that is worn out, never succeeds, whatever else it writes. */
  lemma BadUpdateFails(files: Files, slot: nat, writes: seq<Write>, k: nat)
    requires k < |writes|
    requires BadWrite(writes, k) ||
      exists m, c :: Choose(files, slot) == Base(m, c) && WornOut(m.objects, writes[k].objectType)
    ensures UpdatePlan(files, slot, writes).status != Ok
  {
    hide Choose, WriteRecords, Publish, WornOut;
    match Choose(files, slot)
    case Refused(status) => UpdateRefusal(files, slot, writes); ChooseIs(files, slot);
    case Fresh => BadWriteStops(files, slot, 0, [], writes, 0, k);
    case Base(m, c) =>
      var next := Bumped(m);
      if BadWrite(writes, k) {
        BadWriteStops(files, slot, Other(c), m.objects, writes, 0, k);
      } else {
        ChosenIsAccepted(files, slot);
        WornOutStops(files, slot, Other(c), m.objects, writes, 0, k);
      }
  }

  lemma ChosenIsAccepted(files: Files, slot: nat)
    requires Choose(files, slot).Base?
    ensures DistinctTypes(Choose(files, slot).manifest.objects)
  {
    hide HeaderAccepts, RecordIdValid, Validates, HasData;
  }

  /** A deletion goes through exactly where the slot has its marker and a manifest is taken. */
  lemma DeleteRefusal(files: Files, slot: nat)
    ensures var marked := At(files, MarkerFid(slot)) == Some(Marker(slot));
            (DeletePlan(files, slot).status == Ok <==> marked && Load(files, slot).Loaded?) &&
            (DeletePlan(files, slot).status != Ok ==>
               DeletePlan(files, slot) ==
                 Plan([], if marked && Load(files, slot).Damaged? then WrongData else NotFound))
  {
    hide Load, Remove;
  }

  // ---------- Reading ----------

  /** The manifest lists an object of this type. */
  predicate Lists(m: Manifest, objectType: nat) {
    exists d :: d in m.objects && d.objectType == objectType
  }

  predicate Gives(files: Files, slot: nat, m: Manifest, objectType: nat, data: Bytes) {
    exists d :: d in m.objects && d.objectType == objectType && OpensTo(files, slot, d, data)
  }

  lemma {:induction false} FindIs(objects: seq<Descriptor>, objectType: nat)
    ensures var at := Find(objects, objectType);
            (at < |objects| <==> exists d :: d in objects && d.objectType == objectType) &&
            ((forall i, j :: 0 <= i < j < |objects| ==> objects[i].objectType != objects[j].objectType) ==>
               forall d :: d in objects && d.objectType == objectType ==> at < |objects| && d == objects[at])
    decreases |objects|
  {
    if objects != [] && objects[0].objectType != objectType {
      FindIs(objects[1..], objectType);
      assert forall d :: d in objects <==> d == objects[0] || d in objects[1..];
    }
  }

  lemma ReadFromIff(files: Files, slot: nat, k: nat, objectType: nat)
    requires ParseSlot(files, slot, k).Some?
    ensures var m := ParseSlot(files, slot, k).value;
            forall data :: ReadFrom(files, slot, m, objectType) == Some(data) <==>
              Gives(files, slot, m, objectType, data)
  {
    var m := ParseSlot(files, slot, k).value;
    FindIs(m.objects, objectType);
    forall data ensures ReadFrom(files, slot, m, objectType) == Some(data) <==>
      Gives(files, slot, m, objectType, data)
    {
      var at := Find(m.objects, objectType);
      if at < |m.objects| {
        UnsealIff(files, slot, m.objects[at], data);
        assert m.objects[at] in m.objects;
      }
    }
  }

  /**
   A read gives what the manifest taken gives, or else what the other gives; it never gives a record that
   was sealed for another slot, type or place. With no manifest taken there is nothing to read.
   */
  lemma ReadIs(files: Files, slot: nat, objectType: nat)
    ensures match Load(files, slot)
            case Loaded(m, c) =>
              var other := ParseSlot(files, slot, Other(c));
              forall data :: Read(files, slot, objectType) == Some(data) <==>
                Gives(files, slot, m, objectType, data) ||
                ((forall first :: !Gives(files, slot, m, objectType, first)) && other.Some? &&
                 Gives(files, slot, other.value, objectType, data))
            case _ => Read(files, slot, objectType) == None
  {
    hide ParseSlot, Gives, ReadFrom;
    if Load(files, slot).Loaded? {
      var c := Load(files, slot).half;
      ReadFromIff(files, slot, c, objectType);
      if ParseSlot(files, slot, Other(c)).Some? {
        ReadFromIff(files, slot, Other(c), objectType);
      }
    }
  }

  /** An object that neither manifest lists is no error; one that is listed and does not open is. */
  lemma ReadStatusIs(files: Files, slot: nat, objectType: nat)
    ensures ReadStatus(files, slot, objectType) ==
      match Load(files, slot)
      case Damaged => WrongData
      case Missing => NotFound
      case Loaded(m, c) =>
        var other := ParseSlot(files, slot, Other(c));
        if Read(files, slot, objectType) == None &&
           (Lists(m, objectType) || (other.Some? && Lists(other.value, objectType)))
        then Unreadable else Ok
  {
    hide ParseSlot, Read, Find, Lists;
    if Load(files, slot).Loaded? {
      var m, c := Load(files, slot).manifest, Load(files, slot).half;
      ListsIff(m, objectType);
      if ParseSlot(files, slot, Other(c)).Some? {
        ListsIff(ParseSlot(files, slot, Other(c)).value, objectType);
      }
    }
  }

  lemma ListsIff(m: Manifest, objectType: nat)
    ensures Lists(m, objectType) <==> Find(m.objects, objectType) < |m.objects|
  {
    FindIs(m.objects, objectType);
  }
}
