/**
 Whole runs over all slots: any sequence of creations, credential updates, deletions
 and power cuts. The store always represents an abstract table `slot -> contents`, and
 each event moves that table the way its operation says, or, when cut short, not at all.
 */
module ContainerRuns {
  import opened Basics
  import opened Flash
  import opened ResidentContainer
  import opened ContainerSafety
  import opened ContainerCreation

  type Table = map<nat, seq<Bytes>>

  datatype Call =
    | Create(rpIdHash: Bytes, clientId: Bytes, credential: Bytes, publicKey: Bytes)
    | UpdateCredential(credential: Bytes)
    | Delete

  function WritesOf(call: Call): seq<Write>
    requires !call.Delete?
  {
    match call
    case Create(h, i, c, p) => CreateWrites(h, i, c, p)
    case UpdateCredential(c) => [CredentialWrite(c)]
  }

  function PlanOf(files: Files, slot: nat, call: Call): Plan {
    if call.Delete? then DeletePlan(files, slot) else UpdatePlan(files, slot, WritesOf(call))
  }

  /** What a completed call does to the table. */
  function After(table: Table, slot: nat, call: Call): Table {
    match call
    case Create(h, i, c, p) => table[slot := [h, i, c, p]]
    case UpdateCredential(c) =>
      if slot in table && |table[slot]| == 4 then table[slot := table[slot][CREDENTIAL - 1 := c]] else table
    case Delete => table - {slot}
  }

  /** The store holds `view` in `slot`, with the credential in the manifest's own half. */
  ghost predicate Stores(s: Store, slot: nat, view: seq<Bytes>) {
    exists m: Manifest, c: nat :: Live(s, slot, m, c, view) && Own(slot, m, c, CREDENTIAL)
  }

  /** The entry of one slot in a store. */
  ghost predicate Entry(s: Store, slot: nat, entry: Option<seq<Bytes>>) {
    match entry
    case Some(view) => Stores(s, slot, view)
    case None => Vacant(s, slot)
  }

  function Lookup(table: Table, slot: nat): Option<seq<Bytes>> {
    if slot in table then Some(table[slot]) else None
  }

  ghost predicate Represents(s: Store, table: Table) {
    && Coherent(s)
    && (forall slot :: slot in table ==> slot < 256)
    && (forall slot: nat :: slot < 256 ==> Entry(s, slot, Lookup(table, slot)))
  }

  /**
   The callers only update or delete through a marker, and a re-creation is guarded:
   it builds on a manifest that keeps all its records in its own half.
   */
  ghost predicate Enabled(s: Store, slot: nat, call: Call) {
    && slot < 256
    && (call.Create? ==> forall m, c :: Choose(s.vol, slot) == Base(m, c) ==>
      |m.objects| == 4 && Guard(slot, m, c, WritesOf(call)))
    && (!call.Create? ==> IsMarker(s.vol, slot))
  }

  // ---------- No call touches another slot ----------

  ghost predicate Confined(ops: Log<File>, slot: nat) {
    forall i :: 0 <= i < |ops| ==> ops[i].Sync? || SlotFid(slot, ops[i].fid)
  }

  lemma {:induction false} WriteRecordsConfined(files: Files, slot: nat, target: nat, objects: seq<Descriptor>,
                                                writes: seq<Write>)
    requires target < 2
    ensures Confined(WriteRecords(files, slot, target, objects, writes, 0).ops, slot)
  {
    var ops := WriteRecords(files, slot, target, objects, writes, 0).ops;
    forall i | 0 <= i < |ops| ensures ops[i].Sync? || SlotFid(slot, ops[i].fid) {
      WriteRecordsOps(files, slot, target, objects, writes, 0, i);
    }
  }

  lemma GarbageOwned(slot: nat, target: nat, m: Manifest, fid: nat)
    requires target < 2 && fid in Garbage(slot, target, m)
    ensures SlotFid(slot, fid)
  {
    UnreferencedIs(slot, 0, m, 1, fid);
    UnreferencedIs(slot, 1, m, 1, fid);
  }

  lemma TailConfined(files: Files, slot: nat, target: nat, next: Manifest)
    requires target < 2
    ensures Confined(Tail(files, slot, target, next), slot)
  {
    hide Garbage, Remove, Apply;
    var marker := MarkerOps(files, slot);
    var files' := Apply(files, marker);
    var gc := Remove(files', Garbage(slot, target, next));
    assert Confined(marker, slot);
    RemoveOps(files', Garbage(slot, target, next));
    forall i | 0 <= i < |gc| ensures SlotFid(slot, gc[i].fid) {
      GarbageOwned(slot, target, next, gc[i].fid);
    }
  }

  lemma CommitConfined(files: Files, slot: nat, target: nat, base: Manifest, writes: seq<Write>)
    requires target < 2
    ensures Confined(Commit(files, slot, target, base, writes).ops, slot)
  {
    hide Apply, WriteRecords, Tail;
    var w := WriteRecords(files, slot, target, base.objects, writes, 0);
    var next := base.(objects := w.objects);
    var files' := Apply(files, w.ops);
    var put := Replace(files', ManifestFid(slot, target), ManifestFile(next));
    WriteRecordsConfined(files, slot, target, base.objects, writes);
    TailConfined(Apply(files', put), slot, target, next);
    assert Confined(put, slot);
  }

  lemma DeleteFidsAreAll(slot: nat, fid: nat)
    ensures fid in DeleteFids(slot) <==> SlotFid(slot, fid)
  {
    var fids := DeleteFids(slot);
    assert fids[0] == RecordFid(slot, 0, 1) && fids[1] == RecordFid(slot, 0, 2) && fids[2] == RecordFid(slot, 0, 3)
        && fids[3] == RecordFid(slot, 0, 4) && fids[4] == ManifestFid(slot, 0) && fids[5] == RecordFid(slot, 1, 1)
        && fids[6] == RecordFid(slot, 1, 2) && fids[7] == RecordFid(slot, 1, 3) && fids[8] == RecordFid(slot, 1, 4)
        && fids[9] == ManifestFid(slot, 1) && fids[10] == MarkerFid(slot);
    if SlotFid(slot, fid) && fid !in {MarkerFid(slot), ManifestFid(slot, 0), ManifestFid(slot, 1)} {
      var k, t :| 0 <= k < 2 && RP_ID_HASH <= t <= PUBLIC_KEY && fid == RecordFid(slot, k, t);
      assert fid == fids[5 * k + t - 1];
    }
  }

  lemma DeleteConfined(files: Files, slot: nat)
    ensures Confined(DeletePlan(files, slot).ops, slot)
  {
    var ops := Remove(files, DeleteFids(slot));
    RemoveOps(files, DeleteFids(slot));
    forall i | 0 <= i < |ops| ensures SlotFid(slot, ops[i].fid) {
      DeleteFidsAreAll(slot, ops[i].fid);
    }
  }

  /** Whatever the store holds, a call only writes files of its own slot. */
  lemma CallConfined(files: Files, slot: nat, call: Call)
    ensures Confined(PlanOf(files, slot, call).ops, slot)
  {
    if call.Delete? {
      DeleteConfined(files, slot);
    } else {
      var choice := Choose(files, slot);
      if choice.Fresh? {
        CommitConfined(files, slot, 0, FirstManifest(slot), WritesOf(call));
      } else if choice.Base? {
        CommitConfined(files, slot, Other(choice.half), Bumped(choice.manifest), WritesOf(call));
      }
    }
  }

  lemma ConfinedPrefix(ops: Log<File>, slot: nat, j: nat)
    requires Confined(ops, slot) && j <= |ops|
    ensures Confined(ops[..j], slot)
  {
  }

  /** A call on one slot leaves every file of another slot and of the RP table alone. */
  lemma CallFrame(files: Files, slot: nat, call: Call, other: nat, fid: nat)
    requires slot < 256 && other < 256 && slot != other
    requires SlotFid(other, fid) || EF_RP <= fid < EF_RP + 256
    ensures At(Apply(files, PlanOf(files, slot, call).ops), fid) == At(files, fid)
  {
    var ops := PlanOf(files, slot, call).ops;
    CallConfined(files, slot, call);
    forall i | 0 <= i < |ops| ensures !Touches(ops[i], fid) {
      if Touches(ops[i], fid) {
        SlotsDisjoint(slot, other, fid);
      }
    }
    ApplyFrame(files, ops, fid);
  }

  lemma ForeignHarmless(op: Op<File>, slot: nat, other: nat, m: Manifest, c: nat)
    requires slot < 256 && other < 256 && slot != other && Shape(other, m, c)
    requires op.Sync? || SlotFid(slot, op.fid)
    ensures Harmless(op, other, m, c)
  {
    hide RecordFid, ManifestFid, MarkerFid, SlotFid;
    if !op.Sync? {
      SlotFidRange(slot, op.fid);
      FidForms(other, 0, 1);
      FidForms(other, 1, 1);
      forall i | 0 <= i < 4 ensures m.objects[i].recordId != op.fid {
        FidForms(other, 0, i + 1);
        FidForms(other, 1, i + 1);
      }
    }
  }

  lemma ForeignRecordPut(op: Op<File>, slot: nat, other: nat)
    requires slot < 256 && other < 256 && slot != other
    requires op.Sync? || SlotFid(slot, op.fid)
    ensures RecordPut(op, other)
  {
    if !op.Sync? {
      SlotsDisjoint(slot, other, op.fid);
    }
  }

  lemma OtherStores(s: Store, ops: Log<File>, slot: nat, other: nat, view: seq<Bytes>)
    requires Coherent(s) && Confined(ops, slot) && slot < 256 && other < 256 && slot != other
    requires Stores(s, other, view)
    ensures Stores(Exec(s, ops), other, view)
  {
    var m, c :| Live(s, other, m, c, view) && Own(other, m, c, CREDENTIAL);
    forall i | 0 <= i < |ops| ensures Harmless(ops[i], other, m, c) {
      ForeignHarmless(ops[i], slot, other, m, c);
    }
    LiveExec(s, ops, other, m, c, view);
  }

  lemma OtherVacant(s: Store, ops: Log<File>, slot: nat, other: nat)
    requires Coherent(s) && Confined(ops, slot) && slot < 256 && other < 256 && slot != other
    requires Vacant(s, other)
    ensures Vacant(Exec(s, ops), other)
  {
    forall i | 0 <= i < |ops| ensures RecordPut(ops[i], other) {
      ForeignRecordPut(ops[i], slot, other);
    }
    VacantExec(s, ops, other);
  }

  // ---------- One call on its own slot ----------

  /** The guard a caller can check beforehand holds for every credential update. */
  lemma CredentialUpdateGuarded(slot: nat, m: Manifest, c: nat, credential: Bytes)
    requires Shape(slot, m, c) && Own(slot, m, c, CREDENTIAL)
    ensures ValidWrites(WritesOf(UpdateCredential(credential)))
    ensures Guard(slot, m, c, WritesOf(UpdateCredential(credential)))
  {
  }

  lemma CreateWritesFour(call: Call)
    requires call.Create?
    ensures FourWrites(WritesOf(call)) && ValidWrites(WritesOf(call))
    ensures Contents(WritesOf(call)) == [call.rpIdHash, call.clientId, call.credential, call.publicKey]
  {
    FourValid(WritesOf(call));
  }

  lemma OverwriteAll(view: seq<Bytes>, writes: seq<Write>)
    requires |view| == 4 && FourWrites(writes)
    ensures Overwrite(view, writes) == Contents(writes)
  {
    forall i | 0 <= i < 4 ensures Overwrite(view, writes)[i] == Contents(writes)[i] {
      FourValid(writes);
      WriteOfFinds(writes, 0, i + 1);
      assert writes[i].objectType == i + 1;
      var w := WriteOf(writes, 0, i + 1);
      var j :| 0 <= j < 4 && writes[j] == w.value;
      assert writes[j].objectType == j + 1;
    }
  }

  lemma OverwriteCredential(view: seq<Bytes>, credential: Bytes)
    requires |view| == 4
    ensures Overwrite(view, [CredentialWrite(credential)]) == view[CREDENTIAL - 1 := credential]
  {
    var writes := [CredentialWrite(credential)];
    forall i | 0 <= i < 4 ensures Overwrite(view, writes)[i] == view[CREDENTIAL - 1 := credential][i] {
      assert WriteOf(writes, 0, i + 1) == if i + 1 == CREDENTIAL then Some(writes[0]) else WriteOf(writes, 1, i + 1);
    }
  }

  /** After an update that rewrites the credential, the credential sits in its manifest's own half. */
  lemma SuccessorOwns(files: Files, slot: nat, m: Manifest, c: nat, writes: seq<Write>, t: nat)
    requires slot < 256 && Shape(slot, m, c) && m.generation < UINT32_MAX && ValidWrites(writes) && TypeValid(t)
    ensures |Successor(files, slot, m, c, writes).objects| == 4
    ensures WriteOf(writes, 0, t).Some? ==> Own(slot, Successor(files, slot, m, c, writes), Other(c), t)
    ensures WriteOf(writes, 0, t).None? && Own(slot, m, c, t) ==>
      !Own(slot, Successor(files, slot, m, c, writes), Other(c), t)
  {
    SuccessorObjects(files, slot, m, c, writes);
    var next := Successor(files, slot, m, c, writes);
    assert next.objects[t - 1] == Rewritten(slot, Other(c), m.objects[t - 1], WriteOf(writes, 0, t - 1 + 1));
    FidForms(slot, 0, t);
    FidForms(slot, 1, t);
  }

  /** The table entry a writing call leads to. */
  function EntryAfter(view: Option<seq<Bytes>>, call: Call): seq<Bytes>
    requires !call.Delete? && (call.UpdateCredential? ==> view.Some? && |view.value| == 4)
  {
    match call
    case Create(h, i, c, p) => [h, i, c, p]
    case UpdateCredential(c) => view.value[CREDENTIAL - 1 := c]
  }

  /** What a writing call on a live slot leaves behind at any cut, and at its end. */
  lemma WriteOnLive(s: Store, slot: nat, call: Call, m: Manifest, c: nat, view: seq<Bytes>, j: nat, img: Files)
    requires slot < 256 && Coherent(s) && Live(s, slot, m, c, view) && Own(slot, m, c, CREDENTIAL)
    requires !call.Delete? && Guard(slot, m, c, WritesOf(call)) && m.generation < UINT32_MAX
    requires j <= |PlanOf(s.vol, slot, call).ops|
    ensures var ops := PlanOf(s.vol, slot, call).ops;
      && PlanOf(s.vol, slot, call).status == Ok
      && Stores(Exec(s, ops), slot, EntryAfter(Some(view), call))
      && (CrashImage(Exec(s, ops[..j]), img) ==>
            Stores(Boot(img), slot, view) || Stores(Boot(img), slot, EntryAfter(Some(view), call)))
  {
    hide Exec, Live, UpdatePlan, Successor;
    LiveShape(s, slot, m, c, view);
    var writes := WritesOf(call);
    var nview := Overwrite(view, writes);
    if call.Create? {
      CreateWritesFour(call);
      OverwriteAll(view, writes);
      FourHasCredential(writes);
    } else {
      CredentialUpdateGuarded(slot, m, c, call.credential);
      OverwriteCredential(view, call.credential);
    }
    assert nview == EntryAfter(Some(view), call);
    var ops := PlanOf(s.vol, slot, call).ops;
    assert ops[..|ops|] == ops;
    SuccessorOwns(s.vol, slot, m, c, writes, CREDENTIAL);
    UpdateSound(s, slot, m, c, view, writes, |ops|);
    if CrashImage(Exec(s, ops[..j]), img) {
      UpdateCrashAtomic(s, slot, m, c, view, writes, j, img);
    }
  }

  lemma FourHasCredential(writes: seq<Write>)
    requires FourWrites(writes)
    ensures WriteOf(writes, 0, CREDENTIAL).Some?
  {
    WriteOfFinds(writes, 0, CREDENTIAL);
    assert writes[CREDENTIAL - 1].objectType == CREDENTIAL;
  }

  lemma CreateOnVacant(s: Store, slot: nat, call: Call, j: nat, img: Files)
    requires slot < 256 && Coherent(s) && Vacant(s, slot) && call.Create?
    requires j <= |PlanOf(s.vol, slot, call).ops|
    ensures var ops := PlanOf(s.vol, slot, call).ops;
      && PlanOf(s.vol, slot, call).status == Ok
      && Stores(Exec(s, ops), slot, EntryAfter(None, call))
      && (CrashImage(Exec(s, ops[..j]), img) ==>
            Vacant(Boot(img), slot) || Stores(Boot(img), slot, EntryAfter(None, call)))
  {
    hide Exec, Live, UpdatePlan, Vacant, FirstPublished;
    var writes := WritesOf(call);
    var ops := PlanOf(s.vol, slot, call).ops;
    CreateWritesFour(call);
    FirstShape(slot, writes);
    assert ops[..|ops|] == ops;
    FirstCreateSound(s, slot, writes, |ops|);
    if CrashImage(Exec(s, ops[..j]), img) {
      FirstCreateCrashAtomic(s, slot, writes, j, img);
    }
  }

  /** A manifest whose generation is used up refuses every further write. */
  lemma ExhaustedRefuses(s: Store, slot: nat, call: Call, m: Manifest, c: nat, view: seq<Bytes>)
    requires slot < 256 && Coherent(s) && Live(s, slot, m, c, view)
    requires !call.Delete? && m.generation == UINT32_MAX
    ensures PlanOf(s.vol, slot, call) == Plan([], WrongData)
  {
    LiveLoads(s, s.vol, slot, m, c, view);
  }

  /** Deleting commits once, leaves no file of the slot behind, and makes it vacant. */
  lemma DeleteEmpties(s: Store, slot: nat, m: Manifest, c: nat, view: seq<Bytes>)
    requires slot < 256 && Coherent(s) && Live(s, slot, m, c, view) && IsMarker(s.vol, slot)
    ensures var plan := DeletePlan(s.vol, slot);
      && plan.status == Ok
      && Exec(s, plan.ops) == Boot(Exec(s, plan.ops).vol)
      && (forall fid :: SlotFid(slot, fid) ==> fid !in Exec(s, plan.ops).vol)
      && Vacant(Exec(s, plan.ops), slot)
      && CanCreate(Exec(s, plan.ops).vol, slot)
  {
    LiveLoads(s, s.vol, slot, m, c, view);
    var gone := Remove(s.vol, DeleteFids(slot));
    RemoveOps(s.vol, DeleteFids(slot));
    ExecConcat(s, gone, [Sync]);
    ExecOne(Exec(s, gone), Sync);
    ExecVol(s, gone);
    var files := Apply(s.vol, gone);
    assert DeletePlan(s.vol, slot).ops == gone + [Sync];
    assert Exec(s, gone + [Sync]) == Boot(files);
    EmptySlotVacant(files, slot);
  }

  lemma EmptySlotVacant(files: Files, slot: nat)
    requires forall fid :: fid in files ==> fid !in DeleteFids(slot)
    ensures forall fid :: SlotFid(slot, fid) ==> fid !in files
    ensures Vacant(Boot(files), slot) && CanCreate(files, slot)
  {
    forall fid | SlotFid(slot, fid) ensures fid !in files {
      DeleteFidsAreAll(slot, fid);
    }
    BootCoherent(files);
    VacantLoads(files, slot);
  }

  // ---------- Runs ----------

  /** A call runs to its end, or power fails after `steps` of its operations leaving `img`. */
  datatype Event =
    | Done(slot: nat, call: Call)
    | Cut(slot: nat, call: Call, steps: nat, img: Files)

  /** Deletion is one atomic commit: a cut comes before it or after it. */
  ghost predicate Takes(s: Store, e: Event, s': Store) {
    var ops := PlanOf(s.vol, e.slot, e.call).ops;
    match e
    case Done(_, _) => s' == Exec(s, ops)
    case Cut(_, call, steps, img) =>
      && steps <= |ops|
      && (call.Delete? ==> steps == 0 || steps == |ops|)
      && CrashImage(Exec(s, ops[..steps]), img)
      && s' == Boot(img)
  }

  ghost predicate Happens(s: Store, e: Event, s': Store) {
    Enabled(s, e.slot, e.call) && Takes(s, e, s')
  }

  lemma OthersKept(s: Store, ops: Log<File>, slot: nat, other: nat, entry: Option<seq<Bytes>>)
    requires Coherent(s) && Confined(ops, slot) && slot < 256 && other < 256 && slot != other
    requires Entry(s, other, entry)
    ensures Entry(Exec(s, ops), other, entry)
  {
    match entry
    case Some(view) => OtherStores(s, ops, slot, other, view);
    case None => OtherVacant(s, ops, slot, other);
  }

  lemma EntryAfterCut(s: Store, img: Files, slot: nat, entry: Option<seq<Bytes>>)
    requires Entry(s, slot, entry) && CrashImage(s, img)
    ensures Entry(Boot(img), slot, entry)
  {
    match entry
    case Some(view) => StoresAfterCut(s, img, slot, view);
    case None => VacantAfterCut(s, img, slot);
  }

  lemma StoresAfterCut(s: Store, img: Files, slot: nat, view: seq<Bytes>)
    requires Stores(s, slot, view) && CrashImage(s, img)
    ensures Stores(Boot(img), slot, view)
  {
    var m, c :| Live(s, slot, m, c, view) && Own(slot, m, c, CREDENTIAL);
    LiveAfterCut(s, img, slot, m, c, view);
  }

  /** The called slot holds its new entry at the end; a refused call does nothing. */
  lemma CalledSlot(s: Store, table: Table, slot: nat, call: Call)
    requires Represents(s, table) && Enabled(s, slot, call)
    ensures var plan := PlanOf(s.vol, slot, call);
      && (plan.status == Ok ==> Entry(Exec(s, plan.ops), slot, Lookup(After(table, slot, call), slot)))
      && (plan.status != Ok ==> plan.ops == [])
  {
    assert Entry(s, slot, Lookup(table, slot));
    if slot in table {
      var m, c :| Live(s, slot, m, c, table[slot]) && Own(slot, m, c, CREDENTIAL);
      CallOnLive(s, slot, call, m, c, table[slot]);
    } else {
      VacantUnmarked(s, slot);
      CreateOnVacant(s, slot, call, 0, s.vol);
    }
  }

  lemma CallOnLive(s: Store, slot: nat, call: Call, m: Manifest, c: nat, view: seq<Bytes>)
    requires Coherent(s) && Live(s, slot, m, c, view) && Own(slot, m, c, CREDENTIAL) && Enabled(s, slot, call)
    ensures |view| == 4
    ensures var plan := PlanOf(s.vol, slot, call);
      && (plan.status == Ok ==>
            Entry(Exec(s, plan.ops), slot, if call.Delete? then None else Some(EntryAfter(Some(view), call))))
      && (plan.status != Ok ==> plan.ops == [])
  {
    hide Live, UpdatePlan, Exec;
    LiveShape(s, slot, m, c, view);
    if call.Delete? {
      DeleteEmpties(s, slot, m, c, view);
    } else if m.generation == UINT32_MAX {
      ExhaustedRefuses(s, slot, call, m, c, view);
    } else {
      CallGuarded(s, slot, call, m, c, view);
      WriteOnLive(s, slot, call, m, c, view, 0, s.vol);
    }
  }

  lemma VacantUnmarked(s: Store, slot: nat)
    requires Coherent(s) && Vacant(s, slot)
    ensures !IsMarker(s.vol, slot)
  {
    VacantAfterCut(s, s.vol, slot);
    VacantLoads(s.vol, slot);
  }

  lemma CallGuarded(s: Store, slot: nat, call: Call, m: Manifest, c: nat, view: seq<Bytes>)
    requires Coherent(s) && Live(s, slot, m, c, view) && Own(slot, m, c, CREDENTIAL)
    requires Enabled(s, slot, call) && !call.Delete?
    ensures Guard(slot, m, c, WritesOf(call))
  {
    LiveLoads(s, s.vol, slot, m, c, view);
    if call.UpdateCredential? {
      CredentialUpdateGuarded(slot, m, c, call.credential);
    }
  }

  lemma CalledSlotCut(s: Store, table: Table, slot: nat, call: Call, steps: nat, img: Files)
    requires Represents(s, table) && Happens(s, Cut(slot, call, steps, img), Boot(img))
    ensures
      Entry(Boot(img), slot, Lookup(table, slot)) || Entry(Boot(img), slot, Lookup(After(table, slot, call), slot))
  {
    var ops := PlanOf(s.vol, slot, call).ops;
    assert Entry(s, slot, Lookup(table, slot));
    if ops == [] || (call.Delete? && steps == 0) {
      assert ops[..steps] == [];
      EntryAfterCut(s, img, slot, Lookup(table, slot));
    } else if call.Delete? {
      assert ops[..steps] == ops;
      CalledSlot(s, table, slot, call);
      VacantAfterCut(Exec(s, ops), img, slot);
    } else if slot in table {
      var view := table[slot];
      var m, c :| Live(s, slot, m, c, view) && Own(slot, m, c, CREDENTIAL);
      LiveShape(s, slot, m, c, view);
      CallGuarded(s, slot, call, m, c, view);
      if m.generation == UINT32_MAX {
        ExhaustedRefuses(s, slot, call, m, c, view);
      }
      WriteOnLive(s, slot, call, m, c, view, steps, img);
    } else {
      VacantUnmarked(s, slot);
      CreateOnVacant(s, slot, call, steps, img);
    }
  }

  /**
   Simulation: a completed call moves the table exactly as `After` says, a refused one
   changes nothing, and one cut short leaves the table before it or the table after it.
   */
  lemma EventSimulated(s: Store, table: Table, e: Event, s': Store)
    requires Represents(s, table) && Happens(s, e, s')
    ensures e.Done? && PlanOf(s.vol, e.slot, e.call).status == Ok ==> Represents(s', After(table, e.slot, e.call))
    ensures e.Done? && PlanOf(s.vol, e.slot, e.call).status != Ok ==> s' == s
    ensures e.Cut? ==> Represents(s', table) || Represents(s', After(table, e.slot, e.call))
  {
    hide PlanOf, Stores, Vacant, After, Lookup;
    var slot, call := e.slot, e.call;
    var ops := PlanOf(s.vol, slot, call).ops;
    var next := After(table, slot, call);
    AfterElsewhere(table, slot, call);
    CallConfined(s.vol, slot, call);
    if e.Done? {
      CoherentExec(s, ops);
      CalledSlot(s, table, slot, call);
      forall other: nat | other < 256 && other != slot ensures Entry(s', other, Lookup(table, other)) {
        OthersKept(s, ops, slot, other, Lookup(table, other));
      }
      if PlanOf(s.vol, slot, call).status != Ok {
        ExecNone(s, ops);
      }
    } else {
      ConfinedPrefix(ops, slot, e.steps);
      BootCoherent(e.img);
      CalledSlotCut(s, table, slot, call, e.steps, e.img);
      forall other: nat | other < 256 && other != slot ensures Entry(s', other, Lookup(table, other)) {
        OthersKept(s, ops[..e.steps], slot, other, Lookup(table, other));
        EntryAfterCut(Exec(s, ops[..e.steps]), e.img, other, Lookup(table, other));
      }
    }
  }

  lemma AfterElsewhere(table: Table, slot: nat, call: Call)
    ensures forall other :: other != slot ==> Lookup(After(table, slot, call), other) == Lookup(table, other)
    ensures forall other :: other in After(table, slot, call) ==> other == slot || other in table
  {
  }

  /** `states` is a run of `events`, starting from empty flash. */
  ghost predicate Run(events: seq<Event>, states: seq<Store>) {
    && |states| == |events| + 1
    && states[0] == Boot(map[])
    && (forall i :: 0 <= i < |events| ==> Happens(states[i], events[i], states[i + 1]))
  }

  /** In every state of every run each slot is vacant or holds one complete container. */
  lemma {:induction false} RunRepresents(events: seq<Event>, states: seq<Store>, i: nat) returns (table: Table)
    requires Run(events, states) && i < |states|
    ensures Represents(states[i], table)
    decreases i
  {
    if i == 0 {
      table := map[];
      EmptyRepresents();
    } else {
      var before := RunRepresents(events, states, i - 1);
      var e := events[i - 1];
      EventSimulated(states[i - 1], before, e, states[i]);
      if Represents(states[i], before) {
        table := before;
      } else {
        table := After(before, e.slot, e.call);
      }
    }
  }

  lemma EmptyRepresents()
    ensures Represents(Boot(map[]), map[])
  {
    BootCoherent<File>(map[]);
    forall slot: nat | slot < 256 ensures Entry(Boot(map[]), slot, None) {
      EmptySlotVacant(map[], slot);
    }
  }

  /**
   In every state of every run, and in every image a power cut there can leave, a slot
   loads as missing and can be created, or loads a manifest that opens completely, is
   older than nothing in the other half, and whose objects are no newer than itself.
   So the tie, the fallback, the recovery and the object-overflow branches never fire.
   */
  lemma RunsNeverRecover(events: seq<Event>, states: seq<Store>, i: nat, slot: nat, img: Files)
    requires Run(events, states) && i < |states| && slot < 256 && CrashImage(states[i], img)
    ensures
      || (Load(img, slot) == Missing && Choose(img, slot) == Fresh && !IsMarker(img, slot))
      || (exists m: Manifest, c: nat ::
            && Load(img, slot) == Loaded(m, c) && Choose(img, slot) == Base(m, c) && Validates(img, slot, m)
            && Shape(slot, m, c) && Own(slot, m, c, CREDENTIAL)
            && (ParseSlot(img, slot, Other(c)).Some? ==>
              ParseSlot(img, slot, Other(c)).value.generation < m.generation))
  {
    var table := RunRepresents(events, states, i);
    var s := states[i];
    assert Entry(s, slot, Lookup(table, slot));
    if slot in table {
      var m, c :| Live(s, slot, m, c, table[slot]) && Own(slot, m, c, CREDENTIAL);
      LiveLoads(s, img, slot, m, c, table[slot]);
      LiveHolds(s, img, slot, m, c, table[slot]);
    } else {
      VacantAfterCut(s, img, slot);
      VacantLoads(img, slot);
    }
  }

  /** What the store represents is what every read returns, now and after any power cut. */
  lemma ReadsTable(s: Store, table: Table, img: Files, slot: nat, t: nat)
    requires Represents(s, table) && CrashImage(s, img) && slot < 256 && TypeValid(t)
    ensures slot in table ==> |table[slot]| == 4 && Read(img, slot, t) == Some(table[slot][t - 1])
    ensures slot !in table ==> Read(img, slot, t) == None
  {
    hide Read;
    assert Entry(s, slot, Lookup(table, slot));
    if slot in table {
      var m, c :| Live(s, slot, m, c, table[slot]) && Own(slot, m, c, CREDENTIAL);
      LiveShape(s, slot, m, c, table[slot]);
      LiveLoads(s, img, slot, m, c, table[slot]);
    } else {
      VacantAfterCut(s, img, slot);
      VacantLoads(img, slot);
      MissingReads(img, slot, t);
    }
  }

  lemma MissingReads(files: Files, slot: nat, t: nat)
    requires Load(files, slot) == Missing
    ensures Read(files, slot, t) == None
  {
  }

  // ---------- Which re-creations are guarded ----------

  /** All four records lie in the manifest's own half. */
  ghost predicate Unmixed(slot: nat, m: Manifest, c: nat)
    requires |m.objects| == 4
  {
    forall t: nat :: TypeValid(t) ==> Own(slot, m, c, t)
  }

  /** A creation is guarded exactly when the container is unmixed; which histories leave it so is a fact of runs. */
  lemma CreateGuardIffUnmixed(slot: nat, m: Manifest, c: nat, call: Call)
    requires |m.objects| == 4 && call.Create?
    ensures Guard(slot, m, c, WritesOf(call)) <==> Unmixed(slot, m, c)
  {
    var writes := WritesOf(call);
    forall t: nat | TypeValid(t) ensures writes[t - 1].objectType == t {
    }
  }

  /**
   A creation leaves an unmixed container, and the next credential update mixes it. The
   creation after that is not guarded, so some power cut during it loses the container.
   */
  lemma CreateUpdateCreate(s: Store, slot: nat, m: Manifest, c: nat, view: seq<Bytes>, update: Call, create: Call)
    requires slot < 256 && Coherent(s) && Live(s, slot, m, c, view) && Unmixed(slot, m, c)
    requires update.UpdateCredential? && create.Create? && m.generation + 1 < UINT32_MAX
    ensures var s' := Exec(s, PlanOf(s.vol, slot, update).ops);
      var m' := Successor(s.vol, slot, m, c, WritesOf(update));
      && Live(s', slot, m', Other(c), view[CREDENTIAL - 1 := update.credential])
      && |m'.objects| == 4
      && !Guard(slot, m', Other(c), WritesOf(create))
      && !SettlesAfterEveryCut(s', PlanOf(s'.vol, slot, create).ops, slot, m', Other(c),
                               Successor(s'.vol, slot, m', Other(c), WritesOf(create)))
  {
    var writes := WritesOf(update);
    var ops := PlanOf(s.vol, slot, update).ops;
    var s' := Exec(s, ops);
    var m' := Successor(s.vol, slot, m, c, writes);
    CredentialUpdateGuarded(slot, m, c, update.credential);
    OverwriteCredential(view, update.credential);
    assert ops[..|ops|] == ops;
    UpdateSound(s, slot, m, c, view, writes, |ops|);
    SuccessorObjects(s.vol, slot, m, c, writes);
    SuccessorOwns(s.vol, slot, m, c, writes, RP_ID_HASH);
    WriteOfFinds(writes, 0, RP_ID_HASH);
    CreateWritesFour(create);
    CreateGuardIffUnmixed(slot, m', Other(c), create);
    CrashAtomicIffGuarded(s', slot, m', Other(c), view[CREDENTIAL - 1 := update.credential], WritesOf(create));
  }

  // ---------- Nothing is left behind ----------

  /** Every object of `m` names one of the slot's own record files. */
  ghost predicate RecordIdsValid(slot: nat, objects: seq<Descriptor>) {
    forall i :: 0 <= i < |objects| ==> RecordIdValid(slot, objects[i])
  }

  lemma ReferencedIsRecord(slot: nat, m: Manifest, fid: nat)
    requires slot < 256 && RecordIdsValid(slot, m.objects) && References(m, fid)
    ensures fid != MarkerFid(slot) && fid != ManifestFid(slot, 0) && fid != ManifestFid(slot, 1)
  {
    var i :| 0 <= i < |m.objects| && m.objects[i].recordId == fid;
    FidForms(slot, 0, m.objects[i].objectType);
    FidForms(slot, 1, m.objects[i].objectType);
  }

  lemma RecordIsNeither(slot: nat, h: nat, t: nat)
    requires slot < 256 && h < 2 && TypeValid(t)
    ensures RecordFid(slot, h, t) != MarkerFid(slot)
    ensures RecordFid(slot, h, t) != ManifestFid(slot, 0) && RecordFid(slot, h, t) != ManifestFid(slot, 1)
  {
    FidForms(slot, h, t);
  }

  /** The collection step keeps the marker, the published manifest and its records only. */
  lemma CollectionKeeps(slot: nat, m: Manifest, c: nat, fid: nat)
    requires slot < 256 && c < 2 && RecordIdsValid(slot, m.objects) && SlotFid(slot, fid)
    ensures fid !in Garbage(slot, c, m) <==> fid == MarkerFid(slot) || fid == ManifestFid(slot, c) || References(m, fid)
  {
    hide References, RecordFid, RecordIdValid, ManifestFid, MarkerFid, UnreferencedRecords, SlotFid;
    GarbageIs(slot, c, m, fid);
    if References(m, fid) {
      ReferencedIsRecord(slot, m, fid);
    }
    if fid == MarkerFid(slot) || fid == ManifestFid(slot, 0) || fid == ManifestFid(slot, 1) {
      HeadKept(slot, m, fid);
      HeadsApart(slot);
    } else {
      RecordDropped(slot, m, fid);
    }
  }

  /** The record file is one the collection of some half drops. */
  ghost predicate Dropped(slot: nat, m: Manifest, fid: nat) {
    fid in UnreferencedRecords(slot, 0, m, 1) || fid in UnreferencedRecords(slot, 1, m, 1)
  }

  lemma GarbageIs(slot: nat, c: nat, m: Manifest, fid: nat)
    requires c < 2
    ensures fid in Garbage(slot, c, m) <==> fid == ManifestFid(slot, Other(c)) || Dropped(slot, m, fid)
  {
    hide UnreferencedRecords, ManifestFid;
  }

  lemma HeadsApart(slot: nat)
    requires slot < 256
    ensures MarkerFid(slot) != ManifestFid(slot, 0) && MarkerFid(slot) != ManifestFid(slot, 1) &&
      ManifestFid(slot, 0) != ManifestFid(slot, 1)
  {
    FidForms(slot, 0, 1);
    FidForms(slot, 1, 1);
  }

  lemma HeadKept(slot: nat, m: Manifest, fid: nat)
    requires slot < 256 && (fid == MarkerFid(slot) || fid == ManifestFid(slot, 0) || fid == ManifestFid(slot, 1))
    ensures !Dropped(slot, m, fid)
  {
    hide References, RecordFid, ManifestFid, MarkerFid, UnreferencedRecords;
    UnreferencedIs(slot, 0, m, 1, fid);
    UnreferencedIs(slot, 1, m, 1, fid);
    forall h, u | 0 <= h < 2 && 1 <= u <= PUBLIC_KEY ensures !Unreferenced(slot, h, m, u, fid) {
      RecordIsNeither(slot, h, u);
    }
  }

  lemma RecordDropped(slot: nat, m: Manifest, fid: nat)
    requires SlotFid(slot, fid) && fid != MarkerFid(slot) && fid != ManifestFid(slot, 0) && fid != ManifestFid(slot, 1)
    ensures Dropped(slot, m, fid) <==> !References(m, fid)
  {
    hide References, RecordFid, ManifestFid, MarkerFid, UnreferencedRecords;
    UnreferencedIs(slot, 0, m, 1, fid);
    UnreferencedIs(slot, 1, m, 1, fid);
    var h, u :| 0 <= h < 2 && RP_ID_HASH <= u <= PUBLIC_KEY && fid == RecordFid(slot, h, u);
    assert Unreferenced(slot, h, m, u, fid) <==> !References(m, fid);
  }

  lemma MarkerWritten(files: Files, slot: nat)
    ensures Apply(files, MarkerOps(files, slot)) == files[MarkerFid(slot) := Marker(slot)]
  {
    var replace := Replace(files, MarkerFid(slot), Marker(slot));
    if !IsMarker(files, slot) {
      ReplaceApply(files, MarkerFid(slot), Marker(slot));
      ApplyConcat(files, replace, [Sync]);
      ApplySingle(Apply(files, replace), Sync);
    } else {
      assert files[MarkerFid(slot) := Marker(slot)] == files;
    }
  }

  /** The half an update publishes in and the manifest it publishes there. */
  function Published(files: Files, slot: nat, writes: seq<Write>): (r: (nat, Manifest))
    requires UpdatePlan(files, slot, writes).status == Ok
  {
    match Choose(files, slot)
    case Fresh =>
      (0, FirstManifest(slot).(objects := WriteRecords(files, slot, 0, [], writes, 0).objects))
    case Base(m, c) =>
      (Other(c), Bumped(m).(objects := WriteRecords(files, slot, Other(c), m.objects, writes, 0).objects))
    case Refused(_) => (0, FirstManifest(slot))
  }

  /** The record loop leaves every object it lists in its own record file. */
  lemma {:induction false} RecordsPresent(files: Files, slot: nat, target: nat, objects: seq<Descriptor>,
                                          writes: seq<Write>, i: nat)
    requires i <= |writes| && target < 2 && RecordIdsValid(slot, objects)
    requires forall k :: 0 <= k < |objects| ==> objects[k].recordId in files
    requires WriteRecords(files, slot, target, objects, writes, i).status == Ok
    ensures var w := WriteRecords(files, slot, target, objects, writes, i);
      && RecordIdsValid(slot, w.objects)
      && forall k :: 0 <= k < |w.objects| ==> w.objects[k].recordId in Apply(files, w.ops)
    decreases |writes| - i
  {
    hide RecordFid, Replace;
    if i < |writes| {
      var w := writes[i];
      var at := Find(objects, w.objectType);
      var d := NewDescriptor(slot, target, w, if at < |objects| then objects[at].generation + 1 else 1);
      var record := Record(slot, d, w.data);
      var objects' := if at < |objects| then objects[at := d] else objects + [d];
      var files' := files[d.recordId := record];
      RecordsPresent(files', slot, target, objects', writes, i + 1);
      ReplaceApply(files, d.recordId, record);
      ApplyConcat(files, Replace(files, d.recordId, record),
        WriteRecords(files', slot, target, objects', writes, i + 1).ops);
    }
  }

  /** What an accepted manifest lists is there. */
  lemma BasePresent(files: Files, slot: nat, m: Manifest, c: nat)
    requires Choose(files, slot) == Base(m, c)
    ensures c < 2 && RecordIdsValid(slot, m.objects)
    ensures forall k :: 0 <= k < |m.objects| ==> m.objects[k].recordId in files
  {
  }

  lemma PublishedIs(files: Files, slot: nat, writes: seq<Write>)
    requires UpdatePlan(files, slot, writes).status == Ok
    ensures var (target, next) := Published(files, slot, writes);
      && target < 2
      && RecordIdsValid(slot, next.objects)
      && exists records: Log<File> ::
           && UpdatePlan(files, slot, writes).ops ==
             records + [Sync] + Publish(Apply(files, records), slot, target, next)
           && forall k :: 0 <= k < |next.objects| ==> next.objects[k].recordId in Apply(files, records)
  {
    hide WriteRecords, Publish, Apply;
    match Choose(files, slot)
    case Fresh => RecordsPresent(files, slot, 0, [], writes, 0);
    case Base(m, c) =>
      BasePresent(files, slot, m, c);
      RecordsPresent(files, slot, Other(c), m.objects, writes, 0);
    case Refused(_) =>
  }

  /**
   When an update returns, the slot owns exactly its marker, one manifest and the records that
   manifest references, whatever was there before: a first creation over records of an earlier
   attempt, a guarded update, or a re-creation that is not guarded.
   */
  lemma NoLeaks(s: Store, slot: nat, writes: seq<Write>, fid: nat)
    requires slot < 256 && UpdatePlan(s.vol, slot, writes).status == Ok && SlotFid(slot, fid)
    ensures var (target, next) := Published(s.vol, slot, writes);
      fid in Exec(s, UpdatePlan(s.vol, slot, writes).ops).vol <==>
        fid == MarkerFid(slot) || fid == ManifestFid(slot, target) || References(next, fid)
  {
    hide Exec, Apply, Publish, Garbage, UpdatePlan, Published, SlotFid;
    var (target, next) := Published(s.vol, slot, writes);
    PublishedIs(s.vol, slot, writes);
    var ops := UpdatePlan(s.vol, slot, writes).ops;
    var records: Log<File> :|
      && ops == records + [Sync] + Publish(Apply(s.vol, records), slot, target, next)
      && forall k :: 0 <= k < |next.objects| ==> next.objects[k].recordId in Apply(s.vol, records);
    var f1 := Apply(s.vol, records);
    ExecVol(s, ops);
    ApplyConcat(s.vol, records + [Sync], Publish(f1, slot, target, next));
    ApplyConcat(s.vol, records, [Sync]);
    ApplySingle(f1, Sync);
    PublishApplies(f1, slot, target, next);
    CollectionKeeps(slot, next, target, fid);
  }

  lemma PublishApplies(files: Files, slot: nat, k: nat, next: Manifest)
    ensures var published := files[ManifestFid(slot, k) := ManifestFile(next)][MarkerFid(slot) := Marker(slot)];
      Apply(files, Publish(files, slot, k, next)) ==
        map f | f in published && f !in Garbage(slot, k, next) :: published[f]
  {
    hide Apply, Replace, Garbage, Remove, ManifestFid, MarkerFid, MarkerOps;
    var put := Replace(files, ManifestFid(slot, k), ManifestFile(next));
    var f1 := Apply(files, put);
    var marker := MarkerOps(f1, slot);
    var gc := Remove(Apply(f1, marker), Garbage(slot, k, next));
    ReplaceApply(files, ManifestFid(slot, k), ManifestFile(next));
    MarkerWritten(f1, slot);
    RemoveOps(Apply(f1, marker), Garbage(slot, k, next));
    assert Publish(files, slot, k, next) == (put + [Sync]) + (marker + gc);
    ApplyConcat(files, put + [Sync], marker + gc);
    ApplyConcat(files, put, [Sync]);
    ApplySingle(f1, Sync);
    ApplyConcat(f1, marker, gc);
  }
}
