/**
 Crash safety of the resident container. A slot is `Vacant` or `Live`; both are
 statements about every content its files may turn out to have, so they survive a
 power cut by themselves. The work is to show what each operation of an update does
 to them.
 */
module ContainerSafety {
  import opened Basics
  import opened Flash
  import opened ResidentContainer

  type Store = State<File>

  // ---------- File identifiers never collide ----------

  lemma FidForms(slot: nat, k: nat, t: nat)
    requires slot < 256 && k < 2 && TypeValid(t)
    ensures MarkerFid(slot) == 0xCF00 + slot
    ensures ManifestFid(slot, k) == 0xD100 + 0x100 * k + slot
    ensures RecordFid(slot, k, t) == 0xD300 + 0x400 * k + 0x100 * (t - 1) + slot
  {
  }

  lemma SlotFidRange(slot: nat, fid: nat)
    requires slot < 256 && SlotFid(slot, fid)
    ensures fid % 256 == slot
    ensures 0xCF00 <= fid < 0xD000 || 0xD100 <= fid < 0xDB00
  {
    FidForms(slot, 0, 1);
    FidForms(slot, 1, 1);
    if fid !in {MarkerFid(slot), ManifestFid(slot, 0), ManifestFid(slot, 1)} {
      var k, t :| 0 <= k < 2 && RP_ID_HASH <= t <= PUBLIC_KEY && fid == RecordFid(slot, k, t);
      FidForms(slot, k, t);
    }
  }

  /** Two slots share no file, and no slot owns a file of the RP table. */
  lemma SlotsDisjoint(slot: nat, other: nat, fid: nat)
    requires slot < 256 && other < 256 && slot != other
    requires SlotFid(slot, fid)
    ensures !SlotFid(other, fid)
    ensures !(EF_RP <= fid < EF_RP + 256)
  {
    SlotFidRange(slot, fid);
    if SlotFid(other, fid) {
      SlotFidRange(other, fid);
    }
  }

  // ---------- What a healthy slot looks like ----------

  /** A manifest with the four objects in type order, filed in half `c`. */
  ghost predicate Shape(slot: nat, m: Manifest, c: nat) {
    && c < 2
    && m.containerId == slot
    && m.extensionSize == 0
    && 1 <= m.generation <= UINT32_MAX
    && |m.objects| == 4
    && (forall i :: 0 <= i < 4 ==>
          && m.objects[i].objectType == i + 1
          && RecordIdValid(slot, m.objects[i])
          && 1 <= m.objects[i].generation <= m.generation)
  }

  /** The record of an object lies in the same half as the manifest itself. */
  ghost predicate Own(slot: nat, m: Manifest, c: nat, objectType: nat)
    requires |m.objects| == 4 && TypeValid(objectType)
  {
    m.objects[objectType - 1].recordId == RecordFid(slot, c, objectType)
  }

  /** Every record of `m` is durable and opens to the bytes in `view`. */
  ghost predicate Carried(s: Store, slot: nat, m: Manifest, view: seq<Bytes>) {
    && |m.objects| == |view| == 4
    && (forall i :: 0 <= i < 4 ==>
          && |view[i]| == m.objects[i].logicalSize == m.objects[i].storedSize
          && Poss(s, m.objects[i].recordId) == iset{Some(Record(slot, m.objects[i], view[i]))})
  }

  ghost predicate ManifestAt(s: Store, slot: nat, k: nat, m: Manifest) {
    Poss(s, ManifestFid(slot, k)) == iset{Some(ManifestFile(m))}
  }

  /** Whatever the other half may hold, it is not a manifest as new as `m`. */
  ghost predicate RivalOlder(s: Store, slot: nat, c: nat, m: Manifest) {
    forall v: Option<File> :: v in Poss(s, ManifestFid(slot, Other(c))) && v.Some? && v.value.ManifestFile? ==>
      v.value.manifest.generation < m.generation
  }

  ghost predicate MarkerSound(s: Store, slot: nat) {
    Poss(s, MarkerFid(slot)) <= iset{None, Some(Marker(slot))}
  }

  ghost predicate Live(s: Store, slot: nat, m: Manifest, c: nat, view: seq<Bytes>) {
    && Shape(slot, m, c)
    && Carried(s, slot, m, view)
    && ManifestAt(s, slot, c, m)
    && RivalOlder(s, slot, c, m)
    && MarkerSound(s, slot)
  }

  /** No container: no manifest, no marker, and nothing but records in the record files. */
  ghost predicate Vacant(s: Store, slot: nat) {
    && Poss(s, MarkerFid(slot)) == iset{None}
    && Poss(s, ManifestFid(slot, 0)) == iset{None}
    && Poss(s, ManifestFid(slot, 1)) == iset{None}
    && RecordsOnly(s, slot)
  }

  ghost predicate RecordsOnly(s: Store, slot: nat) {
    forall k, t, v: Option<File> :: 0 <= k < 2 && TypeValid(t) && v in Poss(s, RecordFid(slot, k, t)) && v.Some? ==>
      v.value.Record?
  }

  /** An update is guarded when every record it rewrites lives in the manifest's own half. */
  ghost predicate Guard(slot: nat, m: Manifest, c: nat, writes: seq<Write>)
    requires |m.objects| == 4
  {
    forall i :: 0 <= i < |writes| && TypeValid(writes[i].objectType) ==> Own(slot, m, c, writes[i].objectType)
  }

  /** The writes the two callers pass: distinct known types, none inline. */
  ghost predicate ValidWrites(writes: seq<Write>) {
    && 0 < |writes| <= 4
    && (forall i :: 0 <= i < |writes| ==> TypeValid(writes[i].objectType) && !writes[i].inline)
    && (forall i, j :: 0 <= j < i < |writes| ==> writes[j].objectType != writes[i].objectType)
  }

  /** The write of a type, if any; there is at most one among valid writes. */
  function WriteOf(writes: seq<Write>, i: nat, objectType: nat): (r: Option<Write>)
    requires i <= |writes|
    ensures r.Some? ==> r.value.objectType == objectType
    decreases |writes| - i
  {
    if i == |writes| then None
    else if writes[i].objectType == objectType then Some(writes[i])
    else WriteOf(writes, i + 1, objectType)
  }

  /** The contents after an update: the written objects are new, the others are kept. */
  function Overwrite(view: seq<Bytes>, writes: seq<Write>): (r: seq<Bytes>)
    requires |view| == 4
    ensures |r| == 4
  {
    seq(4, i requires 0 <= i < 4 =>
      var w := WriteOf(writes, 0, i + 1);
      if w.Some? then w.value.data else view[i])
  }

  lemma {:induction false} WriteOfFinds(writes: seq<Write>, i: nat, objectType: nat)
    requires i <= |writes|
    ensures var r := WriteOf(writes, i, objectType);
      && (r.Some? ==> exists j :: i <= j < |writes| && writes[j] == r.value)
      && (r.None? ==> forall j :: i <= j < |writes| ==> writes[j].objectType != objectType)
    decreases |writes| - i
  {
    if i < |writes| && writes[i].objectType != objectType {
      WriteOfFinds(writes, i + 1, objectType);
    }
  }

  lemma LiveShape(s: Store, slot: nat, m: Manifest, c: nat, view: seq<Bytes>)
    requires Live(s, slot, m, c, view)
    ensures Shape(slot, m, c) && |view| == 4
  {
  }

  // ---------- Power cuts keep slots healthy ----------

  lemma LiveAfterCut(s: Store, img: Files, slot: nat, m: Manifest, c: nat, view: seq<Bytes>)
    requires Live(s, slot, m, c, view) && CrashImage(s, img)
    ensures Live(Boot(img), slot, m, c, view)
  {
    BootCoherent(img);
    assert At(img, ManifestFid(slot, c)) in Poss(s, ManifestFid(slot, c));
    assert At(img, ManifestFid(slot, Other(c))) in Poss(s, ManifestFid(slot, Other(c)));
    assert At(img, MarkerFid(slot)) in Poss(s, MarkerFid(slot));
    forall i | 0 <= i < 4
      ensures Poss(Boot(img), m.objects[i].recordId) == iset{Some(Record(slot, m.objects[i], view[i]))}
    {
      assert At(img, m.objects[i].recordId) in Poss(s, m.objects[i].recordId);
    }
  }

  lemma RecordsOnlyAfterCut(s: Store, img: Files, slot: nat)
    requires RecordsOnly(s, slot) && CrashImage(s, img)
    ensures RecordsOnly(Boot(img), slot)
  {
    BootCoherent(img);
    forall k, t, v: Option<File> | 0 <= k < 2 && TypeValid(t) && v in Poss(Boot(img), RecordFid(slot, k, t)) && v.Some?
      ensures v.value.Record?
    {
      assert At(img, RecordFid(slot, k, t)) in Poss(s, RecordFid(slot, k, t));
    }
  }

  lemma VacantAfterCut(s: Store, img: Files, slot: nat)
    requires Vacant(s, slot) && CrashImage(s, img)
    ensures Vacant(Boot(img), slot)
  {
    BootCoherent(img);
    assert At(img, MarkerFid(slot)) in Poss(s, MarkerFid(slot));
    assert At(img, ManifestFid(slot, 0)) in Poss(s, ManifestFid(slot, 0));
    assert At(img, ManifestFid(slot, 1)) in Poss(s, ManifestFid(slot, 1));
    RecordsOnlyAfterCut(s, img, slot);
  }

  // ---------- What readers see of a healthy slot ----------

  ghost predicate Typed(objects: seq<Descriptor>) {
    |objects| == 4 && forall k :: 0 <= k < 4 ==> objects[k].objectType == k + 1
  }

  lemma TypedFinds(objects: seq<Descriptor>, k: nat)
    requires Typed(objects) && k < 4
    ensures Find(objects, k + 1) == k
  {
    FindFirst(objects, k + 1, k);
    var at := Find(objects, k + 1);
    assert objects[at].objectType == at + 1;
  }

  lemma {:induction false} FindFirst(objects: seq<Descriptor>, objectType: nat, j: nat)
    requires j < |objects| && objects[j].objectType == objectType
    ensures Find(objects, objectType) <= j
    decreases |objects|
  {
    if objects[0].objectType != objectType {
      FindFirst(objects[1..], objectType, j - 1);
    }
  }

  /** The files of a live slot, spelled out. */
  ghost predicate Holds(files: Files, slot: nat, m: Manifest, c: nat, view: seq<Bytes>) {
    && Shape(slot, m, c)
    && |view| == 4
    && At(files, ManifestFid(slot, c)) == Some(ManifestFile(m))
    && (forall i :: 0 <= i < 4 ==>
          && |view[i]| == m.objects[i].logicalSize == m.objects[i].storedSize
          && At(files, m.objects[i].recordId) == Some(Record(slot, m.objects[i], view[i])))
  }

  lemma LiveHolds(s: Store, img: Files, slot: nat, m: Manifest, c: nat, view: seq<Bytes>)
    requires Live(s, slot, m, c, view) && CrashImage(s, img)
    ensures Holds(img, slot, m, c, view)
    ensures ParseSlot(img, slot, Other(c)).Some? ==> ParseSlot(img, slot, Other(c)).value.generation < m.generation
  {
    assert At(img, ManifestFid(slot, c)) in Poss(s, ManifestFid(slot, c));
    assert At(img, ManifestFid(slot, Other(c))) in Poss(s, ManifestFid(slot, Other(c)));
    forall i | 0 <= i < 4
      ensures At(img, m.objects[i].recordId) == Some(Record(slot, m.objects[i], view[i]))
    {
      assert At(img, m.objects[i].recordId) in Poss(s, m.objects[i].recordId);
    }
  }

  lemma HoldsLoads(files: Files, slot: nat, m: Manifest, c: nat, view: seq<Bytes>)
    requires Holds(files, slot, m, c, view)
    requires ParseSlot(files, slot, Other(c)).Some? ==> ParseSlot(files, slot, Other(c)).value.generation < m.generation
    ensures Load(files, slot) == Loaded(m, c)
    ensures Validates(files, slot, m)
    ensures Choose(files, slot) == Base(m, c)
    ensures CanCreate(files, slot)
  {
    assert ParseSlot(files, slot, c) == Some(m);
  }

  lemma HoldsReads(files: Files, slot: nat, m: Manifest, c: nat, view: seq<Bytes>, i: nat)
    requires Holds(files, slot, m, c, view) && Load(files, slot) == Loaded(m, c) && i < 4
    ensures Read(files, slot, i + 1) == Some(view[i])
  {
    TypedFinds(m.objects, i);
  }

  /**
   In a live slot the newest manifest is the one every reader and the next update pick:
   the tie, the fallback and the recovery branches are not taken.
   */
  lemma LiveLoads(s: Store, img: Files, slot: nat, m: Manifest, c: nat, view: seq<Bytes>)
    requires Live(s, slot, m, c, view) && CrashImage(s, img)
    ensures Load(img, slot) == Loaded(m, c)
    ensures Validates(img, slot, m)
    ensures Choose(img, slot) == Base(m, c)
    ensures CanCreate(img, slot)
    ensures forall t: nat :: TypeValid(t) ==> Read(img, slot, t) == Some(view[t - 1])
  {
    LiveHolds(s, img, slot, m, c, view);
    HoldsLoads(img, slot, m, c, view);
    forall t: nat | TypeValid(t) ensures Read(img, slot, t) == Some(view[t - 1]) {
      HoldsReads(img, slot, m, c, view, t - 1);
    }
  }

  lemma VacantLoads(files: Files, slot: nat)
    requires Vacant(Boot(files), slot)
    ensures Load(files, slot) == Missing && CanCreate(files, slot) && Choose(files, slot) == Fresh
    ensures !IsMarker(files, slot)
  {
    BootCoherent(files);
    assert At(files, MarkerFid(slot)) in Poss(Boot(files), MarkerFid(slot));
    assert At(files, ManifestFid(slot, 0)) in Poss(Boot(files), ManifestFid(slot, 0));
    assert At(files, ManifestFid(slot, 1)) in Poss(Boot(files), ManifestFid(slot, 1));
    forall k, t | 0 <= k < 2 && RP_ID_HASH <= t <= PUBLIC_KEY && RecordFid(slot, k, t) in files
      ensures files[RecordFid(slot, k, t)].Record?
    {
      assert At(files, RecordFid(slot, k, t)) in Poss(Boot(files), RecordFid(slot, k, t));
    }
  }

  // ---------- One flash operation ----------

  /** The operation leaves the live manifest and its records alone and adds no rival. */
  ghost predicate Harmless(op: Op<File>, slot: nat, m: Manifest, c: nat)
    requires |m.objects| == 4
  {
    op.Sync? || (
      && op.fid != ManifestFid(slot, c)
      && (op.fid == ManifestFid(slot, Other(c)) ==> op.Del?)
      && (op.fid == MarkerFid(slot) ==> op.Put? ==> op.file == Marker(slot))
      && (forall i :: 0 <= i < 4 ==> m.objects[i].recordId != op.fid))
  }

  ghost predicate AllHarmless(ops: Log<File>, slot: nat, m: Manifest, c: nat)
    requires |m.objects| == 4
  {
    forall i :: 0 <= i < |ops| ==> Harmless(ops[i], slot, m, c)
  }

  lemma HarmlessPrefix(ops: Log<File>, slot: nat, m: Manifest, c: nat, j: nat)
    requires |m.objects| == 4 && AllHarmless(ops, slot, m, c) && j <= |ops|
    ensures AllHarmless(ops[..j], slot, m, c)
  {
  }

  lemma LiveStep(s: Store, op: Op<File>, slot: nat, m: Manifest, c: nat, view: seq<Bytes>)
    requires Coherent(s) && Live(s, slot, m, c, view) && Harmless(op, slot, m, c)
    ensures Live(Step(s, op), slot, m, c, view)
  {
    if op.Sync? {
      LiveAfterCut(s, s.vol, slot, m, c, view);
      assert Step(s, op) == Boot(s.vol);
    } else {
      PossStep(s, op, ManifestFid(slot, c));
      PossStep(s, op, ManifestFid(slot, Other(c)));
      PossStep(s, op, MarkerFid(slot));
      forall i | 0 <= i < 4
        ensures Poss(Step(s, op), m.objects[i].recordId) == iset{Some(Record(slot, m.objects[i], view[i]))}
      {
        PossStep(s, op, m.objects[i].recordId);
      }
    }
  }

  lemma {:induction false} LiveExec(s: Store, ops: Log<File>, slot: nat, m: Manifest, c: nat, view: seq<Bytes>)
    requires Coherent(s) && Live(s, slot, m, c, view) && AllHarmless(ops, slot, m, c)
    ensures Coherent(Exec(s, ops)) && Live(Exec(s, ops), slot, m, c, view)
    decreases |ops|
  {
    CoherentExec(s, ops);
    if ops != [] {
      HarmlessPrefix(ops, slot, m, c, |ops| - 1);
      LiveExec(s, ops[..|ops| - 1], slot, m, c, view);
      LiveStep(Exec(s, ops[..|ops| - 1]), ops[|ops| - 1], slot, m, c, view);
    }
  }

  /** Before the first manifest exists, the slot's own writes are all records. */
  ghost predicate RecordPut(op: Op<File>, slot: nat) {
    op.Sync? || (
      && op.fid != MarkerFid(slot)
      && op.fid != ManifestFid(slot, 0)
      && op.fid != ManifestFid(slot, 1)
      && (op.Put? ==> op.file.Record? || !SlotFid(slot, op.fid)))
  }

  ghost predicate AllRecordPuts(ops: Log<File>, slot: nat) {
    forall i :: 0 <= i < |ops| ==> RecordPut(ops[i], slot)
  }

  lemma RecordsOnlyStep(s: Store, op: Op<File>, slot: nat)
    requires RecordsOnly(s, slot) && !op.Sync?
    requires op.Put? && !op.file.Record? ==>
      !SlotFid(slot, op.fid) || op.fid == ManifestFid(slot, 0) || op.fid == ManifestFid(slot, 1)
    requires slot < 256
    ensures RecordsOnly(Step(s, op), slot)
  {
    forall k, t, v: Option<File> |
      0 <= k < 2 && TypeValid(t) && v in Poss(Step(s, op), RecordFid(slot, k, t)) && v.Some?
      ensures v.value.Record?
    {
      PossStep(s, op, RecordFid(slot, k, t));
      FidForms(slot, k, t);
      FidForms(slot, 0, t);
      FidForms(slot, 1, t);
    }
  }

  lemma VacantStep(s: Store, op: Op<File>, slot: nat)
    requires slot < 256 && Coherent(s) && Vacant(s, slot) && RecordPut(op, slot)
    ensures Vacant(Step(s, op), slot)
  {
    if op.Sync? {
      VacantAfterCut(s, s.vol, slot);
      assert Step(s, op) == Boot(s.vol);
    } else {
      PossStep(s, op, MarkerFid(slot));
      PossStep(s, op, ManifestFid(slot, 0));
      PossStep(s, op, ManifestFid(slot, 1));
      RecordsOnlyStep(s, op, slot);
    }
  }

  lemma {:induction false} VacantExec(s: Store, ops: Log<File>, slot: nat)
    requires slot < 256 && Coherent(s) && Vacant(s, slot) && AllRecordPuts(ops, slot)
    ensures Coherent(Exec(s, ops)) && Vacant(Exec(s, ops), slot)
    decreases |ops|
  {
    CoherentExec(s, ops);
    if ops != [] {
      assert AllRecordPuts(ops[..|ops| - 1], slot);
      VacantExec(s, ops[..|ops| - 1], slot);
      VacantStep(Exec(s, ops[..|ops| - 1]), ops[|ops| - 1], slot);
    }
  }

  // ---------- Writing the records ----------

  /** What `next.objects[k]` becomes: rewritten into the target half, or kept. */
  function Rewritten(slot: nat, target: nat, d: Descriptor, w: Option<Write>): Descriptor
    requires w.Some? ==> TypeValid(w.value.objectType)
  {
    if w.None? then d else NewDescriptor(slot, target, w.value, d.generation + 1)
  }

  /** One turn of the loop over the writes, when the manifest already has all four objects. */
  lemma WriteRecordsTurn(files: Files, slot: nat, target: nat, objects: seq<Descriptor>, writes: seq<Write>, i: nat)
    returns (d: Descriptor, objects': seq<Descriptor>, files': Files)
    requires ValidWrites(writes) && i < |writes| && Typed(objects)
    requires forall k :: 0 <= k < 4 && WriteOf(writes, i, k + 1).Some? ==> objects[k].generation < UINT32_MAX
    ensures d == NewDescriptor(slot, target, writes[i], objects[writes[i].objectType - 1].generation + 1)
    ensures objects' == objects[writes[i].objectType - 1 := d] && Typed(objects')
    ensures files' == files[d.recordId := Record(slot, d, writes[i].data)]
    ensures var r := WriteRecords(files, slot, target, objects, writes, i);
      var rest := WriteRecords(files', slot, target, objects', writes, i + 1);
      && r.ops == Replace(files, d.recordId, Record(slot, d, writes[i].data)) + rest.ops
      && r.objects == rest.objects
      && r.status == rest.status
  {
    var w := writes[i];
    var k := w.objectType - 1;
    TypedFinds(objects, k);
    assert WriteOf(writes, i, k + 1) == Some(w);
    assert !WriteRefused(writes, i);
    assert objects[k].generation < UINT32_MAX;
    d := NewDescriptor(slot, target, w, objects[k].generation + 1);
    objects' := objects[k := d];
    files' := files[d.recordId := Record(slot, d, w.data)];
  }

  /** What the loop over the writes produces when the manifest already has all four objects. */
  lemma {:induction false} WriteRecordsResult(files: Files, slot: nat, target: nat, objects: seq<Descriptor>,
                                              writes: seq<Write>, i: nat)
    requires ValidWrites(writes) && i <= |writes| && Typed(objects)
    requires forall k :: 0 <= k < 4 && WriteOf(writes, i, k + 1).Some? ==> objects[k].generation < UINT32_MAX
    ensures var r := WriteRecords(files, slot, target, objects, writes, i);
      && r.status == Ok
      && |r.objects| == 4
      && (forall k :: 0 <= k < 4 ==>
            r.objects[k] == Rewritten(slot, target, objects[k], WriteOf(writes, i, k + 1)))
    decreases |writes| - i
  {
    hide RecordFid, Replace, Apply, NewDescriptor, ValidWrites;
    if i < |writes| {
      var d, objects', files' := WriteRecordsTurn(files, slot, target, objects, writes, i);
      WriteOfNone(writes, i);
      forall k | 0 <= k < 4
        ensures WriteOf(writes, i, k + 1) ==
          if k + 1 == writes[i].objectType then Some(writes[i]) else WriteOf(writes, i + 1, k + 1)
        ensures WriteOf(writes, i + 1, k + 1).Some? ==> objects'[k] == objects[k]
      {
      }
      WriteRecordsResult(files', slot, target, objects', writes, i + 1);
    }
  }

  lemma WriteOfNone(writes: seq<Write>, i: nat)
    requires ValidWrites(writes) && i < |writes|
    ensures WriteOf(writes, i + 1, writes[i].objectType).None?
  {
    WriteOfFinds(writes, i + 1, writes[i].objectType);
  }

  // ---------- The operations of that loop ----------

  predicate WritesTo(op: Op<File>, slot: nat, target: nat, writes: seq<Write>, j: nat) {
    j < |writes| && TypeValid(writes[j].objectType) && !op.Sync? &&
      op.fid == RecordFid(slot, target, writes[j].objectType)
  }

  ghost predicate WritesRecord(op: Op<File>, slot: nat, target: nat, writes: seq<Write>, i: nat) {
    && !op.Sync?
    && (op.Put? ==> op.file.Record?)
    && (exists j :: i <= j < |writes| && WritesTo(op, slot, target, writes, j))
  }

  lemma ReplaceWrites(files: Files, fid: nat, file: File, n: nat)
    requires n < |Replace(files, fid, file)|
    ensures var op := Replace(files, fid, file)[n]; !op.Sync? && op.fid == fid && (op.Put? ==> op.file == file)
  {
  }

  lemma {:induction false} WriteRecordsOps(files: Files, slot: nat, target: nat, objects: seq<Descriptor>,
                                            writes: seq<Write>, i: nat, n: nat)
    requires i <= |writes| && n < |WriteRecords(files, slot, target, objects, writes, i).ops|
    ensures WritesRecord(WriteRecords(files, slot, target, objects, writes, i).ops[n], slot, target, writes, i)
    decreases |writes| - i
  {
    hide RecordFid, Replace, Find;
    var w := writes[i];
    var at := Find(objects, w.objectType);
    var d := NewDescriptor(slot, target, w, if at < |objects| then objects[at].generation + 1 else 1);
    var head := Replace(files, d.recordId, Record(slot, d, w.data));
    if n < |head| {
      ReplaceWrites(files, d.recordId, Record(slot, d, w.data), n);
      assert WritesTo(head[n], slot, target, writes, i);
    } else {
      var objects' := if at < |objects| then objects[at := d] else objects + [d];
      WriteRecordsOps(files[d.recordId := Record(slot, d, w.data)], slot, target, objects', writes, i + 1, n - |head|);
    }
  }

  lemma RecordFidsDiffer(slot: nat, k: nat, t: nat, k': nat, t': nat)
    requires slot < 256 && k < 2 && k' < 2 && TypeValid(t) && TypeValid(t')
    requires RecordFid(slot, k, t) == RecordFid(slot, k', t')
    ensures k == k' && t == t'
  {
    FidForms(slot, k, t);
    FidForms(slot, k', t');
  }

  /** Later writes leave the record of an earlier one alone. */
  lemma LaterWritesKeep(files: Files, slot: nat, target: nat, objects: seq<Descriptor>, writes: seq<Write>, i: nat)
    requires slot < 256 && target < 2
    requires ValidWrites(writes) && i < |writes|
    ensures var fid := RecordFid(slot, target, writes[i].objectType);
      At(Apply(files, WriteRecords(files, slot, target, objects, writes, i + 1).ops), fid) == At(files, fid)
  {
    var fid := RecordFid(slot, target, writes[i].objectType);
    var ops := WriteRecords(files, slot, target, objects, writes, i + 1).ops;
    forall n | 0 <= n < |ops| ensures !Touches(ops[n], fid) {
      WriteRecordsOps(files, slot, target, objects, writes, i + 1, n);
      var j :| i + 1 <= j < |writes| && WritesTo(ops[n], slot, target, writes, j);
      if ops[n].fid == fid {
        RecordFidsDiffer(slot, target, writes[j].objectType, target, writes[i].objectType);
      }
    }
    ApplyFrame(files, ops, fid);
  }

  /** Each record written is the one its new descriptor was made for. */
  lemma {:induction false} WriteRecordsFiles(files: Files, slot: nat, target: nat, objects: seq<Descriptor>,
                                            writes: seq<Write>, i: nat, j: nat)
    requires slot < 256 && target < 2
    requires ValidWrites(writes) && i <= j < |writes| && Typed(objects)
    requires forall k :: 0 <= k < 4 && WriteOf(writes, i, k + 1).Some? ==> objects[k].generation < UINT32_MAX
    ensures var r := WriteRecords(files, slot, target, objects, writes, i);
      var t := writes[j].objectType;
      && |r.objects| == 4
      && At(Apply(files, r.ops), RecordFid(slot, target, t)) == Some(Record(slot, r.objects[t - 1], writes[j].data))
    decreases |writes| - i
  {
    hide RecordFid, Replace, ValidWrites;
    var d, objects', files' := WriteRecordsTurn(files, slot, target, objects, writes, i);
    var record := Record(slot, d, writes[i].data);
    ReplaceApply(files, d.recordId, record);
    ApplyConcat(files, Replace(files, d.recordId, record),
      WriteRecords(files', slot, target, objects', writes, i + 1).ops);
    WriteOfNone(writes, i);
    WriteRecordsResult(files', slot, target, objects', writes, i + 1);
    if j > i {
      WriteRecordsFiles(files', slot, target, objects', writes, i + 1, j);
    } else {
      LaterWritesKeep(files', slot, target, objects', writes, i);
    }
  }

  // ---------- Updating a live container ----------

  /** The manifest that an update of `m`, filed in half `c`, publishes in the other half. */
  function Successor(files: Files, slot: nat, m: Manifest, c: nat, writes: seq<Write>): Manifest {
    Bumped(m).(objects := WriteRecords(files, slot, Other(c), m.objects, writes, 0).objects)
  }

  lemma SuccessorObjects(files: Files, slot: nat, m: Manifest, c: nat, writes: seq<Write>)
    requires slot < 256 && Shape(slot, m, c) && m.generation < UINT32_MAX && ValidWrites(writes)
    ensures var w := WriteRecords(files, slot, Other(c), m.objects, writes, 0);
      var next := Successor(files, slot, m, c, writes);
      && w.status == Ok
      && Shape(slot, next, Other(c))
      && next.generation == m.generation + 1 && next.previous == m.generation && next.containerId == m.containerId
      && (forall k :: 0 <= k < 4 ==>
            next.objects[k] == Rewritten(slot, Other(c), m.objects[k], WriteOf(writes, 0, k + 1)))
  {
    WriteRecordsResult(files, slot, Other(c), m.objects, writes, 0);
  }

  /** Every record of `m` is in its file and opens to the bytes in `view`. */
  ghost predicate InPlace(files: Files, slot: nat, m: Manifest, view: seq<Bytes>) {
    && |m.objects| == |view| == 4
    && forall i :: 0 <= i < 4 ==>
         && |view[i]| == m.objects[i].logicalSize == m.objects[i].storedSize
         && At(files, m.objects[i].recordId) == Some(Record(slot, m.objects[i], view[i]))
  }

  lemma InPlaceCarried(files: Files, slot: nat, m: Manifest, view: seq<Bytes>)
    requires InPlace(files, slot, m, view)
    ensures Carried(Boot(files), slot, m, view)
  {
    BootCoherent(files);
  }

  /** Once the records are committed, the successor's records are all in place. */
  lemma SuccessorInPlace(s: Store, slot: nat, m: Manifest, c: nat, view: seq<Bytes>, writes: seq<Write>)
    requires slot < 256 && Coherent(s) && Live(s, slot, m, c, view)
    requires m.generation < UINT32_MAX && ValidWrites(writes) && Guard(slot, m, c, writes)
    ensures var ops := WriteRecords(s.vol, slot, Other(c), m.objects, writes, 0).ops;
      InPlace(Apply(s.vol, ops), slot, Successor(s.vol, slot, m, c, writes), Overwrite(view, writes))
  {
    hide Exec, Apply, Live, Guard, ValidWrites, WriteRecords, WriteOf, RecordFid;
    LiveShape(s, slot, m, c, view);
    var ops := WriteRecords(s.vol, slot, Other(c), m.objects, writes, 0).ops;
    var next := Successor(s.vol, slot, m, c, writes);
    SuccessorObjects(s.vol, slot, m, c, writes);
    RecordOpsHarmless(s.vol, slot, m, c, writes);
    LiveExec(s, ops, slot, m, c, view);
    LiveHolds(Exec(s, ops), Exec(s, ops).vol, slot, m, c, view);
    ExecVol(s, ops);
    forall i | 0 <= i < 4
      ensures var d := next.objects[i];
        && |Overwrite(view, writes)[i]| == d.logicalSize == d.storedSize
        && At(Apply(s.vol, ops), d.recordId) == Some(Record(slot, d, Overwrite(view, writes)[i]))
    {
      SuccessorRecord(s.vol, slot, m, c, writes, i);
      assert next.objects[i] == Rewritten(slot, Other(c), m.objects[i], WriteOf(writes, 0, i + 1));
    }
  }

  /** The state right after the commit that follows the records. */
  lemma SuccessorReady(s: Store, slot: nat, m: Manifest, c: nat, view: seq<Bytes>, writes: seq<Write>)
    requires slot < 256 && Coherent(s) && Live(s, slot, m, c, view)
    requires m.generation < UINT32_MAX && ValidWrites(writes) && Guard(slot, m, c, writes)
    ensures var ops := WriteRecords(s.vol, slot, Other(c), m.objects, writes, 0).ops;
      && Exec(s, ops + [Sync]).vol == Apply(s.vol, ops)
      && Ready(Exec(s, ops + [Sync]), slot, m, c, view, Successor(s.vol, slot, m, c, writes), Overwrite(view, writes))
  {
    var ops := WriteRecords(s.vol, slot, Other(c), m.objects, writes, 0).ops;
    SuccessorInPlace(s, slot, m, c, view, writes);
    InPlaceCarried(Apply(s.vol, ops), slot, Successor(s.vol, slot, m, c, writes), Overwrite(view, writes));
    SuccessorObjects(s.vol, slot, m, c, writes);
    RecordOpsHarmless(s.vol, slot, m, c, writes);
    LiveExec(s, ops, slot, m, c, view);
    LiveStep(Exec(s, ops), Sync, slot, m, c, view);
    CoherentStep(Exec(s, ops), Sync);
    ExecVol(s, ops);
    ExecConcat(s, ops, [Sync]);
    ExecOne(Exec(s, ops), Sync);
  }

  lemma SuccessorRecord(files: Files, slot: nat, m: Manifest, c: nat, writes: seq<Write>, i: nat)
    requires slot < 256 && Shape(slot, m, c) && m.generation < UINT32_MAX && ValidWrites(writes) && i < 4
    ensures |Successor(files, slot, m, c, writes).objects| == 4
    ensures WriteOf(writes, 0, i + 1).Some? ==>
      var d := Successor(files, slot, m, c, writes).objects[i];
      At(Apply(files, WriteRecords(files, slot, Other(c), m.objects, writes, 0).ops), d.recordId) ==
        Some(Record(slot, d, WriteOf(writes, 0, i + 1).value.data))
  {
    SuccessorObjects(files, slot, m, c, writes);
    var w := WriteOf(writes, 0, i + 1);
    WriteOfFinds(writes, 0, i + 1);
    if w.Some? {
      var j :| 0 <= j < |writes| && writes[j] == w.value;
      WriteRecordsFiles(files, slot, Other(c), m.objects, writes, 0, j);
    }
  }

  lemma RecordOpsHarmless(files: Files, slot: nat, m: Manifest, c: nat, writes: seq<Write>)
    requires slot < 256 && Shape(slot, m, c) && ValidWrites(writes) && Guard(slot, m, c, writes)
    ensures var ops := WriteRecords(files, slot, Other(c), m.objects, writes, 0).ops;
      AllHarmless(ops, slot, m, c)
  {
    var ops := WriteRecords(files, slot, Other(c), m.objects, writes, 0).ops;
    forall n | 0 <= n < |ops| ensures Harmless(ops[n], slot, m, c) {
      WriteRecordsOps(files, slot, Other(c), m.objects, writes, 0, n);
      var j :| 0 <= j < |writes| && ops[n].fid == RecordFid(slot, Other(c), writes[j].objectType);
      RecordFidHarmless(ops[n], slot, m, c, writes[j].objectType);
    }
  }

  lemma RecordFidHarmless(op: Op<File>, slot: nat, m: Manifest, c: nat, t: nat)
    requires slot < 256 && Shape(slot, m, c) && TypeValid(t) && Own(slot, m, c, t)
    requires !op.Sync? && op.fid == RecordFid(slot, Other(c), t)
    ensures Harmless(op, slot, m, c)
  {
    FidForms(slot, 0, t);
    FidForms(slot, 1, t);
    forall i | 0 <= i < 4 ensures m.objects[i].recordId != op.fid {
      FidForms(slot, 0, i + 1);
      FidForms(slot, 1, i + 1);
    }
  }

  // ---------- Publishing the manifest ----------

  /** Old and new are both complete; the target half holds neither, or just the new one. */
  ghost predicate Switching(s: Store, slot: nat, m: Manifest, c: nat, view: seq<Bytes>, next: Manifest,
                            nview: seq<Bytes>) {
    && Shape(slot, m, c) && Carried(s, slot, m, view)
    && Shape(slot, next, Other(c)) && Carried(s, slot, next, nview)
    && ManifestAt(s, slot, c, m)
    && m.generation < next.generation
    && (forall v: Option<File> :: v in Poss(s, ManifestFid(slot, Other(c))) && v.Some? && v.value.ManifestFile? ==>
          v.value.manifest == next || v.value.manifest.generation < m.generation)
    && MarkerSound(s, slot)
  }

  lemma SwitchingAfterCut(s: Store, img: Files, slot: nat, m: Manifest, c: nat, view: seq<Bytes>, next: Manifest,
                          nview: seq<Bytes>)
    requires Switching(s, slot, m, c, view, next, nview) && CrashImage(s, img)
    ensures if At(img, ManifestFid(slot, Other(c))) == Some(ManifestFile(next))
            then Live(Boot(img), slot, next, Other(c), nview) else Live(Boot(img), slot, m, c, view)
  {
    BootCoherent(img);
    assert At(img, ManifestFid(slot, c)) in Poss(s, ManifestFid(slot, c));
    assert At(img, ManifestFid(slot, Other(c))) in Poss(s, ManifestFid(slot, Other(c)));
    assert At(img, MarkerFid(slot)) in Poss(s, MarkerFid(slot));
    CarriedAfterCut(s, img, slot, m, view);
    CarriedAfterCut(s, img, slot, next, nview);
  }

  lemma CarriedAfterCut(s: Store, img: Files, slot: nat, m: Manifest, view: seq<Bytes>)
    requires Carried(s, slot, m, view) && CrashImage(s, img)
    ensures Carried(Boot(img), slot, m, view)
  {
    BootCoherent(img);
    forall i | 0 <= i < 4
      ensures Poss(Boot(img), m.objects[i].recordId) == iset{Some(Record(slot, m.objects[i], view[i]))}
    {
      assert At(img, m.objects[i].recordId) in Poss(s, m.objects[i].recordId);
    }
  }

  lemma CarriedStep(s: Store, op: Op<File>, slot: nat, m: Manifest, view: seq<Bytes>)
    requires Carried(s, slot, m, view) && !op.Sync?
    requires forall i :: 0 <= i < 4 ==> m.objects[i].recordId != op.fid
    ensures Carried(Step(s, op), slot, m, view)
  {
    forall i | 0 <= i < 4
      ensures Poss(Step(s, op), m.objects[i].recordId) == iset{Some(Record(slot, m.objects[i], view[i]))}
    {
      PossStep(s, op, m.objects[i].recordId);
    }
  }

  /** A manifest, a marker and a record never share a file. */
  lemma ManifestFidApart(slot: nat, m: Manifest, c: nat, k: nat)
    requires slot < 256 && Shape(slot, m, c) && k < 2
    ensures ManifestFid(slot, k) != MarkerFid(slot)
    ensures ManifestFid(slot, k) != ManifestFid(slot, Other(k))
    ensures forall i :: 0 <= i < 4 ==>
      m.objects[i].recordId != ManifestFid(slot, k) && m.objects[i].recordId != MarkerFid(slot)
  {
    FidForms(slot, k, 1);
    FidForms(slot, Other(k), 1);
    forall i | 0 <= i < 4
      ensures m.objects[i].recordId != ManifestFid(slot, k) && m.objects[i].recordId != MarkerFid(slot)
    {
      FidForms(slot, 0, i + 1);
      FidForms(slot, 1, i + 1);
    }
  }

  /** Ready to publish: the old container stands and every record of `next` is durable. */
  ghost predicate Ready(s: Store, slot: nat, m: Manifest, c: nat, view: seq<Bytes>, next: Manifest, nview: seq<Bytes>) {
    && Coherent(s)
    && Live(s, slot, m, c, view)
    && Shape(slot, next, Other(c)) && Carried(s, slot, next, nview)
    && m.generation < next.generation
  }

  lemma ReadyDelete(s: Store, slot: nat, m: Manifest, c: nat, view: seq<Bytes>, next: Manifest, nview: seq<Bytes>)
    requires slot < 256 && Ready(s, slot, m, c, view, next, nview)
    ensures Ready(Step(s, Del(ManifestFid(slot, Other(c)))), slot, m, c, view, next, nview)
  {
    var op: Op<File> := Del(ManifestFid(slot, Other(c)));
    ManifestFidApart(slot, m, c, c);
    ManifestFidApart(slot, m, c, Other(c));
    ManifestFidApart(slot, next, Other(c), Other(c));
    LiveStep(s, op, slot, m, c, view);
    CarriedStep(s, op, slot, next, nview);
    CoherentStep(s, op);
  }

  lemma ReadyPut(s: Store, slot: nat, m: Manifest, c: nat, view: seq<Bytes>, next: Manifest, nview: seq<Bytes>)
    requires slot < 256 && Ready(s, slot, m, c, view, next, nview)
    ensures var s' := Step(s, Put(ManifestFid(slot, Other(c)), ManifestFile(next)));
      && Coherent(s')
      && Switching(s', slot, m, c, view, next, nview)
      && At(s'.vol, ManifestFid(slot, Other(c))) == Some(ManifestFile(next))
  {
    var op: Op<File> := Put(ManifestFid(slot, Other(c)), ManifestFile(next));
    ManifestFidApart(slot, m, c, c);
    ManifestFidApart(slot, m, c, Other(c));
    ManifestFidApart(slot, next, Other(c), Other(c));
    CarriedStep(s, op, slot, m, view);
    CarriedStep(s, op, slot, next, nview);
    PossStep(s, op, ManifestFid(slot, c));
    PossStep(s, op, ManifestFid(slot, Other(c)));
    PossStep(s, op, MarkerFid(slot));
    CoherentStep(s, op);
  }

  /** What follows the manifest's own commit leaves the new container alone. */
  lemma TailHarmless(files: Files, slot: nat, next: Manifest, k: nat)
    requires slot < 256 && Shape(slot, next, k)
    ensures AllHarmless(Tail(files, slot, k, next), slot, next, k)
  {
    MarkerHarmless(files, slot, next, k);
    GarbageHarmless(Apply(files, MarkerOps(files, slot)), slot, next, k);
  }

  lemma MarkerHarmless(files: Files, slot: nat, next: Manifest, k: nat)
    requires slot < 256 && Shape(slot, next, k)
    ensures AllHarmless(MarkerOps(files, slot), slot, next, k)
  {
    ManifestFidApart(slot, next, k, k);
    ManifestFidApart(slot, next, k, Other(k));
  }

  lemma GarbageHarmless(files: Files, slot: nat, next: Manifest, k: nat)
    requires slot < 256 && Shape(slot, next, k)
    ensures AllHarmless(Remove(files, Garbage(slot, k, next)), slot, next, k)
  {
    var ops := Remove(files, Garbage(slot, k, next));
    RemoveOps(files, Garbage(slot, k, next));
    forall n | 0 <= n < |ops| ensures Harmless(ops[n], slot, next, k) {
      GarbageUnused(slot, k, next, ops[n].fid);
    }
  }

  predicate Unreferenced(slot: nat, h: nat, m: Manifest, u: nat, fid: nat) {
    u >= 1 && fid == RecordFid(slot, h, u) && !References(m, fid)
  }

  lemma {:induction false} UnreferencedIs(slot: nat, h: nat, m: Manifest, t: nat, fid: nat)
    requires 1 <= t <= PUBLIC_KEY + 1
    ensures fid in UnreferencedRecords(slot, h, m, t) <==>
      exists u :: t <= u <= PUBLIC_KEY && Unreferenced(slot, h, m, u, fid)
    decreases PUBLIC_KEY + 1 - t
  {
    hide References, RecordFid;
    if t <= PUBLIC_KEY {
      var rest := UnreferencedRecords(slot, h, m, t + 1);
      UnreferencedIs(slot, h, m, t + 1, fid);
      assert fid in UnreferencedRecords(slot, h, m, t) <==> Unreferenced(slot, h, m, t, fid) || fid in rest;
    }
  }

  lemma GarbageUnused(slot: nat, k: nat, next: Manifest, fid: nat)
    requires slot < 256 && Shape(slot, next, k) && fid in Garbage(slot, k, next)
    ensures !References(next, fid)
    ensures fid != ManifestFid(slot, k) && fid != MarkerFid(slot)
  {
    UnreferencedIs(slot, 0, next, 1, fid);
    UnreferencedIs(slot, 1, next, 1, fid);
    ManifestFidApart(slot, next, k, k);
    ManifestFidApart(slot, next, k, Other(k));
    FidForms(slot, 0, 1);
    FidForms(slot, 1, 1);
    if fid in UnreferencedRecords(slot, 0, next, 1) {
      var u :| 1 <= u <= PUBLIC_KEY && Unreferenced(slot, 0, next, u, fid);
      FidForms(slot, 0, u);
    } else if fid in UnreferencedRecords(slot, 1, next, 1) {
      var u :| 1 <= u <= PUBLIC_KEY && Unreferenced(slot, 1, next, u, fid);
      FidForms(slot, 1, u);
    }
  }

  /** Any prefix of `a + b` runs a prefix of `a`, or all of `a` and a prefix of `b`. */
  lemma PrefixSplit<F>(s: State<F>, a: Log<F>, b: Log<F>, j: nat)
    requires j <= |a + b|
    ensures j <= |a| ==> (a + b)[..j] == a[..j]
    ensures j >= |a| ==> Exec(s, (a + b)[..j]) == Exec(Exec(s, a), b[..j - |a|])
  {
    if j >= |a| {
      assert (a + b)[..j] == a + b[..j - |a|];
      ExecConcat(s, a, b[..j - |a|]);
    }
  }

  lemma ExecOne<F>(s: State<F>, op: Op<F>)
    ensures Exec(s, [op]) == Step(s, op)
  {
    assert [op][..0] == [];
  }

  /** The old container, the switch, or the new one. */
  ghost predicate Sound(s: Store, slot: nat, m: Manifest, c: nat, view: seq<Bytes>, next: Manifest, nview: seq<Bytes>) {
    || Live(s, slot, m, c, view)
    || Switching(s, slot, m, c, view, next, nview)
    || Live(s, slot, next, Other(c), nview)
  }

  lemma ReplaceManifest(s: Store, slot: nat, m: Manifest, c: nat, view: seq<Bytes>, next: Manifest, nview: seq<Bytes>,
                        j: nat)
    requires slot < 256 && Ready(s, slot, m, c, view, next, nview)
    requires j <= |Replace(s.vol, ManifestFid(slot, Other(c)), ManifestFile(next))|
    ensures var ops := Replace(s.vol, ManifestFid(slot, Other(c)), ManifestFile(next));
      var s' := Exec(s, ops[..j]);
      && Coherent(s')
      && Sound(s', slot, m, c, view, next, nview)
      && (j == |ops| ==>
            && Switching(s', slot, m, c, view, next, nview)
            && At(s'.vol, ManifestFid(slot, Other(c))) == Some(ManifestFile(next)))
  {
    hide Exec, Replace, Live, Carried, Switching, Coherent, Shape, Step;
    var fid := ManifestFid(slot, Other(c));
    ReplaceStates(s, fid, ManifestFile(next), j);
    ReadyIs(s, slot, m, c, view, next, nview);
    ReadyDelete(s, slot, m, c, view, next, nview);
    ReadyIs(Step(s, Del(fid)), slot, m, c, view, next, nview);
    ReadyPut(s, slot, m, c, view, next, nview);
    ReadyPut(Step(s, Del(fid)), slot, m, c, view, next, nview);
  }

  lemma ReadyIs(s: Store, slot: nat, m: Manifest, c: nat, view: seq<Bytes>, next: Manifest, nview: seq<Bytes>)
    requires Ready(s, slot, m, c, view, next, nview)
    ensures Coherent(s) && Live(s, slot, m, c, view)
  {
  }

  /** Every prefix of the publishing steps is sound, and the whole of them leaves the new container. */
  lemma PublishSound(s: Store, slot: nat, m: Manifest, c: nat, view: seq<Bytes>, next: Manifest, nview: seq<Bytes>,
                     j: nat)
    requires slot < 256 && Ready(s, slot, m, c, view, next, nview)
    requires j <= |Publish(s.vol, slot, Other(c), next)|
    ensures var ops := Publish(s.vol, slot, Other(c), next);
      var s' := Exec(s, ops[..j]);
      && Coherent(s')
      && Sound(s', slot, m, c, view, next, nview)
      && (j == |ops| ==> Live(s', slot, next, Other(c), nview))
  {
    hide Exec, Apply, Replace, Tail, Live, Carried, Possible;
    var put := Replace(s.vol, ManifestFid(slot, Other(c)), ManifestFile(next));
    var tail := Tail(Apply(s.vol, put), slot, Other(c), next);
    var ops := Publish(s.vol, slot, Other(c), next);
    assert ops == put + ([Sync] + tail);
    PrefixSplit(s, put, [Sync] + tail, j);
    if j <= |put| {
      ReplaceManifest(s, slot, m, c, view, next, nview, j);
    } else {
      var n := j - |put|;
      ReplaceManifest(s, slot, m, c, view, next, nview, |put|);
      assert put[..|put|] == put;
      var s1 := Exec(s, put);
      ExecVol(s, put);
      PrefixSplit(s1, [Sync], tail, n);
      ExecOne(s1, Sync);
      var s2 := Step(s1, Sync);
      SwitchingAfterCut(s1, s1.vol, slot, m, c, view, next, nview);
      assert s2 == Boot(s1.vol);
      BootCoherent(s1.vol);
      TailHarmless(s1.vol, slot, next, Other(c));
      HarmlessPrefix(tail, slot, next, Other(c), n - 1);
      LiveExec(s2, tail[..n - 1], slot, next, Other(c), nview);
    }
  }

  /** The plan an update of a live container follows. */
  lemma LivePlan(s: Store, slot: nat, m: Manifest, c: nat, view: seq<Bytes>, writes: seq<Write>)
    requires slot < 256 && Coherent(s) && Live(s, slot, m, c, view)
    requires m.generation < UINT32_MAX && ValidWrites(writes)
    ensures var w := WriteRecords(s.vol, slot, Other(c), m.objects, writes, 0);
      UpdatePlan(s.vol, slot, writes) ==
        Plan(w.ops + [Sync] + Publish(Apply(s.vol, w.ops), slot, Other(c), Successor(s.vol, slot, m, c, writes)), Ok)
  {
    hide WriteRecords, Publish, Choose, Apply, Live;
    LiveShape(s, slot, m, c, view);
    LiveLoads(s, s.vol, slot, m, c, view);
    SuccessorObjects(s.vol, slot, m, c, writes);
  }

  /** A guarded update is sound at every step and ends in the new container. */
  lemma UpdateSound(s: Store, slot: nat, m: Manifest, c: nat, view: seq<Bytes>, writes: seq<Write>, j: nat)
    requires slot < 256 && Coherent(s) && Live(s, slot, m, c, view)
    requires m.generation < UINT32_MAX && ValidWrites(writes) && Guard(slot, m, c, writes)
    requires j <= |UpdatePlan(s.vol, slot, writes).ops|
    ensures var plan := UpdatePlan(s.vol, slot, writes);
      var next := Successor(s.vol, slot, m, c, writes);
      var s' := Exec(s, plan.ops[..j]);
      && plan.status == Ok
      && Coherent(s')
      && Sound(s', slot, m, c, view, next, Overwrite(view, writes))
      && (j == |plan.ops| ==> Live(s', slot, next, Other(c), Overwrite(view, writes)))
  {
    hide Exec, Apply, WriteRecords, Publish, Live, Switching, Carried;
    LiveShape(s, slot, m, c, view);
    LivePlan(s, slot, m, c, view, writes);
    SuccessorObjects(s.vol, slot, m, c, writes);
    var next := Successor(s.vol, slot, m, c, writes);
    var nview := Overwrite(view, writes);
    var w := WriteRecords(s.vol, slot, Other(c), m.objects, writes, 0);
    var head := w.ops + [Sync];
    var publish := Publish(Apply(s.vol, w.ops), slot, Other(c), next);
    assert UpdatePlan(s.vol, slot, writes).ops == head + publish;
    PrefixSplit(s, head, publish, j);
    if j <= |head| {
      RecordOpsHarmless(s.vol, slot, m, c, writes);
      assert AllHarmless(head, slot, m, c);
      HarmlessPrefix(head, slot, m, c, j);
      LiveExec(s, head[..j], slot, m, c, view);
    }
    if j >= |head| {
      SuccessorReady(s, slot, m, c, view, writes);
      PublishSound(Exec(s, head), slot, m, c, view, next, nview, j - |head|);
    }
  }

  /**
   Crash atomicity. When every record an update rewrites lives in the current
   manifest's own half, a power cut after any number of its flash operations leaves the
   old container or the new one: complete, and the one that readers pick.
   */
  lemma UpdateCrashAtomic(s: Store, slot: nat, m: Manifest, c: nat, view: seq<Bytes>, writes: seq<Write>, j: nat,
                          img: Files)
    requires slot < 256 && Coherent(s) && Live(s, slot, m, c, view)
    requires m.generation < UINT32_MAX && ValidWrites(writes) && Guard(slot, m, c, writes)
    requires j <= |UpdatePlan(s.vol, slot, writes).ops|
    requires CrashImage(Exec(s, UpdatePlan(s.vol, slot, writes).ops[..j]), img)
    ensures var next := Successor(s.vol, slot, m, c, writes);
      || Live(Boot(img), slot, m, c, view)
      || Live(Boot(img), slot, next, Other(c), Overwrite(view, writes))
    ensures || (forall t: nat :: TypeValid(t) ==> Read(img, slot, t) == Some(view[t - 1]))
            || (forall t: nat :: TypeValid(t) ==> Read(img, slot, t) == Some(Overwrite(view, writes)[t - 1]))
  {
    UpdateSound(s, slot, m, c, view, writes, j);
    var s' := Exec(s, UpdatePlan(s.vol, slot, writes).ops[..j]);
    var next := Successor(s.vol, slot, m, c, writes);
    var nview := Overwrite(view, writes);
    if Live(s', slot, m, c, view) {
      LiveAfterCut(s', img, slot, m, c, view);
    } else if Live(s', slot, next, Other(c), nview) {
      LiveAfterCut(s', img, slot, next, Other(c), nview);
    } else {
      SwitchingAfterCut(s', img, slot, m, c, view, next, nview);
    }
    BootCoherent(img);
    if Live(Boot(img), slot, m, c, view) {
      LiveLoads(Boot(img), img, slot, m, c, view);
    } else {
      LiveLoads(Boot(img), img, slot, next, Other(c), nview);
    }
  }

  // ---------- The guard is exact ----------

  /**
   The image in which one rewritten record has reached flash and nothing else has.
   Its object no longer opens under the old manifest, and the new one is not there yet.
   */
  lemma UnguardedImage(s: Store, slot: nat, m: Manifest, c: nat, view: seq<Bytes>, writes: seq<Write>, n: nat)
    returns (img: Files)
    requires slot < 256 && Coherent(s) && Live(s, slot, m, c, view)
    requires m.generation < UINT32_MAX && ValidWrites(writes)
    requires n < |writes| && !Own(slot, m, c, writes[n].objectType)
    ensures CrashImage(Exec(s, WriteRecords(s.vol, slot, Other(c), m.objects, writes, 0).ops), img)
    ensures !Validates(img, slot, m)
    ensures At(img, ManifestFid(slot, Other(c))) != Some(ManifestFile(Successor(s.vol, slot, m, c, writes)))
  {
    hide Exec, Apply, WriteRecords, Live, Possible;
    LiveShape(s, slot, m, c, view);
    var ops := WriteRecords(s.vol, slot, Other(c), m.objects, writes, 0).ops;
    var t := writes[n].objectType;
    var fid := RecordFid(slot, Other(c), t);
    SuccessorObjects(s.vol, slot, m, c, writes);
    var record := Record(slot, Successor(s.vol, slot, m, c, writes).objects[t - 1], writes[n].data);
    WriteRecordsFiles(s.vol, slot, Other(c), m.objects, writes, 0, n);
    ExecVol(s, ops);
    forall i | 0 <= i < |ops| ensures !ops[i].Sync? {
      WriteRecordsOps(s.vol, slot, Other(c), m.objects, writes, 0, i);
    }
    OneWriteImage(s, ops, fid, record);
    img := s.dur[fid := record];
    RewrittenRecordLost(img, s.vol, slot, m, c, writes, n);
    RivalNotYet(s, slot, m, c, view, Successor(s.vol, slot, m, c, writes));
    FidForms(slot, Other(c), t);
  }

  lemma RivalNotYet(s: Store, slot: nat, m: Manifest, c: nat, view: seq<Bytes>, next: Manifest)
    requires Live(s, slot, m, c, view) && m.generation < next.generation
    ensures At(s.dur, ManifestFid(slot, Other(c))) != Some(ManifestFile(next))
  {
    DurPossible(s.dur, s.log, ManifestFid(slot, Other(c)));
  }

  lemma RewrittenRecordLost(img: Files, files: Files, slot: nat, m: Manifest, c: nat, writes: seq<Write>, n: nat)
    requires slot < 256 && Shape(slot, m, c) && m.generation < UINT32_MAX && ValidWrites(writes)
    requires n < |writes| && !Own(slot, m, c, writes[n].objectType)
    requires |Successor(files, slot, m, c, writes).objects| == 4
    requires var t := writes[n].objectType;
      At(img, RecordFid(slot, Other(c), t)) ==
        Some(Record(slot, Successor(files, slot, m, c, writes).objects[t - 1], writes[n].data))
    ensures !Validates(img, slot, m)
  {
    var t := writes[n].objectType;
    SuccessorObjects(files, slot, m, c, writes);
    WriteOfFinds(writes, 0, t);
    assert Successor(files, slot, m, c, writes).objects[t - 1]
        == Rewritten(slot, Other(c), m.objects[t - 1], WriteOf(writes, 0, t - 1 + 1));
    assert m.objects[t - 1].recordId == RecordFid(slot, Other(c), t);
    assert Unseal(img, slot, m.objects[t - 1]).None?;
  }

  /** The manifest an image settles on is the old one or the new one. */
  ghost predicate Settles(img: Files, slot: nat, m: Manifest, c: nat, next: Manifest) {
    Choose(img, slot) == Base(m, c) || Choose(img, slot) == Base(next, Other(c))
  }

  ghost predicate SettlesAfterEveryCut(s: Store, ops: Log<File>, slot: nat, m: Manifest, c: nat, next: Manifest) {
    forall j: nat, img: Files :: j <= |ops| && CrashImage(Exec(s, ops[..j]), img) ==> Settles(img, slot, m, c, next)
  }

  lemma GuardedSettles(s: Store, slot: nat, m: Manifest, c: nat, view: seq<Bytes>, writes: seq<Write>, j: nat,
                       img: Files)
    requires slot < 256 && Coherent(s) && Live(s, slot, m, c, view)
    requires m.generation < UINT32_MAX && ValidWrites(writes) && Guard(slot, m, c, writes)
    requires j <= |UpdatePlan(s.vol, slot, writes).ops|
    requires CrashImage(Exec(s, UpdatePlan(s.vol, slot, writes).ops[..j]), img)
    ensures Settles(img, slot, m, c, Successor(s.vol, slot, m, c, writes))
  {
    var next := Successor(s.vol, slot, m, c, writes);
    UpdateCrashAtomic(s, slot, m, c, view, writes, j, img);
    BootCoherent(img);
    if Live(Boot(img), slot, m, c, view) {
      LiveLoads(Boot(img), img, slot, m, c, view);
    } else {
      LiveLoads(Boot(img), img, slot, next, Other(c), Overwrite(view, writes));
    }
  }

  lemma UnguardedBreaks(s: Store, slot: nat, m: Manifest, c: nat, view: seq<Bytes>, writes: seq<Write>)
    returns (j: nat, img: Files)
    requires slot < 256 && Coherent(s) && Live(s, slot, m, c, view)
    requires m.generation < UINT32_MAX && ValidWrites(writes) && !Guard(slot, m, c, writes)
    ensures j <= |UpdatePlan(s.vol, slot, writes).ops|
    ensures CrashImage(Exec(s, UpdatePlan(s.vol, slot, writes).ops[..j]), img)
    ensures !Settles(img, slot, m, c, Successor(s.vol, slot, m, c, writes))
  {
    hide UpdatePlan, WriteRecords, Publish, Live, CrashImage, Exec, Settles, Coherent, Successor;
    LiveShape(s, slot, m, c, view);
    var n :| 0 <= n < |writes| && !Own(slot, m, c, writes[n].objectType);
    img := UnguardedImage(s, slot, m, c, view, writes, n);
    LivePlan(s, slot, m, c, view, writes);
    var records := WriteRecords(s.vol, slot, Other(c), m.objects, writes, 0).ops;
    j := |records|;
    assert UpdatePlan(s.vol, slot, writes).ops[..j] == records;
    NotSettled(img, slot, m, c, Successor(s.vol, slot, m, c, writes));
  }

  /**
   An update of a live container is crash atomic exactly when it is guarded: when no
   record it rewrites is one the current manifest keeps in the other half.
   */
  lemma CrashAtomicIffGuarded(s: Store, slot: nat, m: Manifest, c: nat, view: seq<Bytes>, writes: seq<Write>)
    requires slot < 256 && Coherent(s) && Live(s, slot, m, c, view)
    requires m.generation < UINT32_MAX && ValidWrites(writes)
    ensures SettlesAfterEveryCut(s, UpdatePlan(s.vol, slot, writes).ops, slot, m, c,
      Successor(s.vol, slot, m, c, writes))
      <==> Guard(slot, m, c, writes)
  {
    hide UpdatePlan, Successor, Exec, Settles;
    var ops := UpdatePlan(s.vol, slot, writes).ops;
    if Guard(slot, m, c, writes) {
      forall j: nat, img: Files | j <= |ops| && CrashImage(Exec(s, ops[..j]), img)
        ensures Settles(img, slot, m, c, Successor(s.vol, slot, m, c, writes))
      {
        GuardedSettles(s, slot, m, c, view, writes, j, img);
      }
    } else {
      var j, img := UnguardedBreaks(s, slot, m, c, view, writes);
    }
  }

  lemma NotSettled(img: Files, slot: nat, m: Manifest, c: nat, next: Manifest)
    requires slot < 256 && Shape(slot, m, c) && !Validates(img, slot, m)
    requires At(img, ManifestFid(slot, Other(c))) != Some(ManifestFile(next))
    ensures !Settles(img, slot, m, c, next)
  {
  }
}
