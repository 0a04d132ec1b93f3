/**
 Creating a container in a vacant slot, deleting one, and what completed operations
 leave behind.
 */
module ContainerCreation {
  import opened Basics
  import opened Flash
  import opened ResidentContainer
  import opened ContainerSafety

  /** One write per object type, in type order. */
  ghost predicate FourWrites(writes: seq<Write>) {
    |writes| == 4 && forall j :: 0 <= j < 4 ==> writes[j].objectType == j + 1 && !writes[j].inline
  }

  function FirstObjects(slot: nat, writes: seq<Write>, n: nat): (r: seq<Descriptor>)
    requires n <= |writes| && forall j :: 0 <= j < n ==> TypeValid(writes[j].objectType)
    ensures |r| == n
  {
    seq(n, j requires 0 <= j < n => NewDescriptor(slot, 0, writes[j], 1))
  }

  function Contents(writes: seq<Write>): (r: seq<Bytes>)
    ensures |r| == |writes|
  {
    seq(|writes|, j requires 0 <= j < |writes| => writes[j].data)
  }

  lemma {:induction false} FindNone(objects: seq<Descriptor>, objectType: nat)
    requires forall j :: 0 <= j < |objects| ==> objects[j].objectType != objectType
    ensures Find(objects, objectType) == |objects|
    decreases |objects|
  {
    if objects != [] {
      FindNone(objects[1..], objectType);
    }
  }

  /** One turn of the loop over the writes of a first creation. */
  lemma FirstTurn(files: Files, slot: nat, writes: seq<Write>, i: nat)
    requires FourWrites(writes) && i < 4
    ensures var d := NewDescriptor(slot, 0, writes[i], 1);
      var record := Record(slot, d, writes[i].data);
      var r := WriteRecords(files, slot, 0, FirstObjects(slot, writes, i), writes, i);
      var rest := WriteRecords(files[d.recordId := record], slot, 0, FirstObjects(slot, writes, i + 1), writes, i + 1);
      && r.ops == Replace(files, d.recordId, record) + rest.ops
      && r.objects == rest.objects
      && r.status == rest.status
  {
    var objects := FirstObjects(slot, writes, i);
    FindNone(objects, i + 1);
    assert writes[i].objectType == i + 1;
    assert !WriteRefused(writes, i);
    assert objects + [NewDescriptor(slot, 0, writes[i], 1)] == FirstObjects(slot, writes, i + 1);
  }

  lemma {:induction false} FirstResult(files: Files, slot: nat, writes: seq<Write>, i: nat)
    requires FourWrites(writes) && i <= 4
    ensures var r := WriteRecords(files, slot, 0, FirstObjects(slot, writes, i), writes, i);
      r.status == Ok && r.objects == FirstObjects(slot, writes, 4)
    decreases 4 - i
  {
    if i < 4 {
      FirstTurn(files, slot, writes, i);
      var d := NewDescriptor(slot, 0, writes[i], 1);
      FirstResult(files[d.recordId := Record(slot, d, writes[i].data)], slot, writes, i + 1);
    }
  }

  lemma FourValid(writes: seq<Write>)
    requires FourWrites(writes)
    ensures ValidWrites(writes)
  {
    forall i, j | 0 <= j < i < |writes| ensures writes[j].objectType != writes[i].objectType {
      assert writes[j].objectType == j + 1 && writes[i].objectType == i + 1;
    }
  }

  lemma {:induction false} FirstFiles(files: Files, slot: nat, writes: seq<Write>, i: nat, j: nat)
    requires slot < 256 && FourWrites(writes) && i <= j < 4
    ensures var d := NewDescriptor(slot, 0, writes[j], 1);
      At(Apply(files, WriteRecords(files, slot, 0, FirstObjects(slot, writes, i), writes, i).ops), d.recordId)
        == Some(Record(slot, d, writes[j].data))
    decreases 4 - i
  {
    FirstTurn(files, slot, writes, i);
    var d := NewDescriptor(slot, 0, writes[i], 1);
    var record := Record(slot, d, writes[i].data);
    var files' := files[d.recordId := record];
    var objects' := FirstObjects(slot, writes, i + 1);
    ReplaceApply(files, d.recordId, record);
    ApplyConcat(files, Replace(files, d.recordId, record), WriteRecords(files', slot, 0, objects', writes, i + 1).ops);
    if i < j {
      FirstFiles(files', slot, writes, i + 1, j);
    } else {
      FourValid(writes);
      LaterWritesKeep(files', slot, 0, objects', writes, i);
    }
  }

  function FirstPublished(slot: nat, writes: seq<Write>): Manifest
    requires |writes| == 4 && forall j :: 0 <= j < 4 ==> TypeValid(writes[j].objectType)
  {
    FirstManifest(slot).(objects := FirstObjects(slot, writes, 4))
  }

  lemma FirstShape(slot: nat, writes: seq<Write>)
    requires FourWrites(writes)
    ensures Shape(slot, FirstPublished(slot, writes), 0)
    ensures forall t: nat :: TypeValid(t) ==> Own(slot, FirstPublished(slot, writes), 0, t)
  {
    var m := FirstPublished(slot, writes);
    forall i | 0 <= i < 4
      ensures m.objects[i].objectType == i + 1 && RecordIdValid(slot, m.objects[i]) && m.objects[i].generation == 1
    {
      assert writes[i].objectType == i + 1;
    }
    forall t: nat | TypeValid(t) ensures Own(slot, m, 0, t) {
      assert writes[t - 1].objectType == t;
    }
  }

  /** The slot is vacant and the records of the first manifest are durable. */
  ghost predicate FirstReady(s: Store, slot: nat, writes: seq<Write>)
    requires FourWrites(writes)
  {
    && Coherent(s)
    && Vacant(s, slot)
    && Carried(s, slot, FirstPublished(slot, writes), Contents(writes))
  }

  lemma FirstOpsAreRecords(files: Files, slot: nat, writes: seq<Write>)
    requires slot < 256 && FourWrites(writes)
    ensures var ops := WriteRecords(files, slot, 0, [], writes, 0).ops;
      AllRecordPuts(ops, slot)
  {
    var ops := WriteRecords(files, slot, 0, [], writes, 0).ops;
    forall n | 0 <= n < |ops| ensures RecordPut(ops[n], slot) {
      WriteRecordsOps(files, slot, 0, [], writes, 0, n);
      var j :| 0 <= j < |writes| && TypeValid(writes[j].objectType) &&
        ops[n].fid == RecordFid(slot, 0, writes[j].objectType);
      FidForms(slot, 0, writes[j].objectType);
      FidForms(slot, 1, writes[j].objectType);
    }
  }

  lemma FirstInPlace(files: Files, slot: nat, writes: seq<Write>)
    requires slot < 256 && FourWrites(writes)
    ensures InPlace(Apply(files, WriteRecords(files, slot, 0, [], writes, 0).ops), slot, FirstPublished(slot, writes),
      Contents(writes))
  {
    var m := FirstPublished(slot, writes);
    assert FirstObjects(slot, writes, 0) == [];
    forall i | 0 <= i < 4
      ensures var d := m.objects[i];
        At(Apply(files, WriteRecords(files, slot, 0, [], writes, 0).ops), d.recordId) ==
          Some(Record(slot, d, Contents(writes)[i]))
    {
      FirstFiles(files, slot, writes, 0, i);
    }
  }

  lemma FirstRecords(s: Store, slot: nat, writes: seq<Write>)
    requires slot < 256 && Coherent(s) && Vacant(s, slot) && FourWrites(writes)
    ensures var ops := WriteRecords(s.vol, slot, 0, [], writes, 0).ops;
      && Exec(s, ops + [Sync]).vol == Apply(s.vol, ops)
      && FirstReady(Exec(s, ops + [Sync]), slot, writes)
  {
    var ops := WriteRecords(s.vol, slot, 0, [], writes, 0).ops;
    FirstInPlace(s.vol, slot, writes);
    InPlaceCarried(Apply(s.vol, ops), slot, FirstPublished(slot, writes), Contents(writes));
    FirstOpsAreRecords(s.vol, slot, writes);
    VacantExec(s, ops, slot);
    VacantStep(Exec(s, ops), Sync, slot);
    CoherentStep(Exec(s, ops), Sync);
    ExecVol(s, ops);
    ExecConcat(s, ops, [Sync]);
    ExecOne(Exec(s, ops), Sync);
  }

  /** The first manifest may or may not have reached flash. */
  ghost predicate FirstSwitching(s: Store, slot: nat, next: Manifest, view: seq<Bytes>) {
    && Shape(slot, next, 0) && Carried(s, slot, next, view)
    && Poss(s, ManifestFid(slot, 0)) <= iset{None, Some(ManifestFile(next))}
    && Poss(s, ManifestFid(slot, 1)) == iset{None}
    && Poss(s, MarkerFid(slot)) == iset{None}
    && RecordsOnly(s, slot)
  }

  lemma FirstSwitchingAfterCut(s: Store, img: Files, slot: nat, next: Manifest, view: seq<Bytes>)
    requires FirstSwitching(s, slot, next, view) && CrashImage(s, img)
    ensures if At(img, ManifestFid(slot, 0)) == Some(ManifestFile(next)) then Live(Boot(img), slot, next, 0, view)
            else Vacant(Boot(img), slot)
  {
    BootCoherent(img);
    CarriedAfterCut(s, img, slot, next, view);
    RecordsOnlyAfterCut(s, img, slot);
    assert At(img, ManifestFid(slot, 0)) in Poss(s, ManifestFid(slot, 0));
    assert At(img, ManifestFid(slot, 1)) in Poss(s, ManifestFid(slot, 1));
    assert At(img, MarkerFid(slot)) in Poss(s, MarkerFid(slot));
  }

  lemma FirstPut(s: Store, slot: nat, writes: seq<Write>)
    requires slot < 256 && FourWrites(writes) && FirstReady(s, slot, writes)
    ensures var next := FirstPublished(slot, writes);
      var ops := Replace(s.vol, ManifestFid(slot, 0), ManifestFile(next));
      && |ops| == 1
      && Coherent(Exec(s, ops))
      && FirstSwitching(Exec(s, ops), slot, next, Contents(writes))
      && At(Exec(s, ops).vol, ManifestFid(slot, 0)) == Some(ManifestFile(next))
  {
    var next := FirstPublished(slot, writes);
    var put: Op<File> := Put(ManifestFid(slot, 0), ManifestFile(next));
    FirstShape(slot, writes);
    assert At(s.vol, ManifestFid(slot, 0)) in Poss(s, ManifestFid(slot, 0));
    assert Replace(s.vol, ManifestFid(slot, 0), ManifestFile(next)) == [put];
    ExecOne(s, put);
    CoherentStep(s, put);
    ManifestFidApart(slot, next, 0, 0);
    CarriedStep(s, put, slot, next, Contents(writes));
    PossStep(s, put, ManifestFid(slot, 0));
    PossStep(s, put, ManifestFid(slot, 1));
    PossStep(s, put, MarkerFid(slot));
    FidForms(slot, 0, 1);
    RecordsOnlyStep(s, put, slot);
  }

  lemma FirstPlan(s: Store, slot: nat, writes: seq<Write>)
    requires slot < 256 && Coherent(s) && Vacant(s, slot) && FourWrites(writes)
    ensures var ops := WriteRecords(s.vol, slot, 0, [], writes, 0).ops;
      UpdatePlan(s.vol, slot, writes) ==
        Plan(ops + [Sync] + Publish(Apply(s.vol, ops), slot, 0, FirstPublished(slot, writes)), Ok)
  {
    VacantAfterCut(s, s.vol, slot);
    VacantLoads(s.vol, slot);
    assert FirstObjects(slot, writes, 0) == [];
    FirstResult(s.vol, slot, writes, 0);
  }

  /** Vacant, or switching to the first container, or holding it. */
  ghost predicate FirstSound(s: Store, slot: nat, next: Manifest, view: seq<Bytes>) {
    || Vacant(s, slot)
    || FirstSwitching(s, slot, next, view)
    || Live(s, slot, next, 0, view)
  }

  lemma FirstPublishSound(s: Store, slot: nat, writes: seq<Write>, j: nat)
    requires slot < 256 && FourWrites(writes) && FirstReady(s, slot, writes)
    requires j <= |Publish(s.vol, slot, 0, FirstPublished(slot, writes))|
    ensures var next := FirstPublished(slot, writes);
      var ops := Publish(s.vol, slot, 0, next);
      && Coherent(Exec(s, ops[..j]))
      && FirstSound(Exec(s, ops[..j]), slot, next, Contents(writes))
      && (j == |ops| ==> Live(Exec(s, ops[..j]), slot, next, 0, Contents(writes)))
  {
    hide Exec, Apply, Replace, Tail, Carried, Possible;
    var next := FirstPublished(slot, writes);
    var put := Replace(s.vol, ManifestFid(slot, 0), ManifestFile(next));
    var tail := Tail(Apply(s.vol, put), slot, 0, next);
    var ops := Publish(s.vol, slot, 0, next);
    assert ops == put + ([Sync] + tail);
    FirstPut(s, slot, writes);
    FirstShape(slot, writes);
    PrefixSplit(s, put, [Sync] + tail, j);
    if j == 0 {
      ExecNone(s, ops[..j]);
    } else {
      var n: nat := j - 1;
      assert put[..1] == put;
      var s1 := Exec(s, put);
      ExecVol(s, put);
      PrefixSplit(s1, [Sync], tail, n);
      if n == 0 {
        ExecNone(s1, ([Sync] + tail)[..n]);
      } else {
        ExecOne(s1, Sync);
        FirstSwitchingAfterCut(s1, s1.vol, slot, next, Contents(writes));
        assert Step(s1, Sync) == Boot(s1.vol);
        BootCoherent(s1.vol);
        TailHarmless(s1.vol, slot, next, 0);
        HarmlessPrefix(tail, slot, next, 0, n - 1);
        LiveExec(Boot(s1.vol), tail[..n - 1], slot, next, 0, Contents(writes));
      }
    }
  }

  lemma ExecNone(s: Store, ops: Log<File>)
    requires ops == []
    ensures Exec(s, ops) == s
  {
  }

  /** Creating in a vacant slot is sound at every step and ends with the container. */
  lemma FirstCreateSound(s: Store, slot: nat, writes: seq<Write>, j: nat)
    requires slot < 256 && Coherent(s) && Vacant(s, slot) && FourWrites(writes)
    requires j <= |UpdatePlan(s.vol, slot, writes).ops|
    ensures var plan := UpdatePlan(s.vol, slot, writes);
      var s' := Exec(s, plan.ops[..j]);
      && plan.status == Ok
      && Coherent(s')
      && FirstSound(s', slot, FirstPublished(slot, writes), Contents(writes))
      && (j == |plan.ops| ==> Live(s', slot, FirstPublished(slot, writes), 0, Contents(writes)))
  {
    hide Exec, Apply, WriteRecords, Publish, Live, FirstSwitching, Carried, Vacant;
    FirstPlan(s, slot, writes);
    var w := WriteRecords(s.vol, slot, 0, [], writes, 0).ops;
    var head := w + [Sync];
    var publish := Publish(Apply(s.vol, w), slot, 0, FirstPublished(slot, writes));
    PrefixSplit(s, head, publish, j);
    if j <= |head| {
      FirstOpsAreRecords(s.vol, slot, writes);
      assert AllRecordPuts(head[..j], slot);
      VacantExec(s, head[..j], slot);
    }
    if j >= |head| {
      FirstRecords(s, slot, writes);
      FirstPublishSound(Exec(s, head), slot, writes, j - |head|);
    }
  }

  /** A power cut during a first creation leaves a vacant slot or the complete container. */
  lemma FirstCreateCrashAtomic(s: Store, slot: nat, writes: seq<Write>, j: nat, img: Files)
    requires slot < 256 && Coherent(s) && Vacant(s, slot) && FourWrites(writes)
    requires j <= |UpdatePlan(s.vol, slot, writes).ops|
    requires CrashImage(Exec(s, UpdatePlan(s.vol, slot, writes).ops[..j]), img)
    ensures Vacant(Boot(img), slot) || Live(Boot(img), slot, FirstPublished(slot, writes), 0, Contents(writes))
  {
    FirstCreateSound(s, slot, writes, j);
    var s' := Exec(s, UpdatePlan(s.vol, slot, writes).ops[..j]);
    var next := FirstPublished(slot, writes);
    if Vacant(s', slot) {
      VacantAfterCut(s', img, slot);
    } else if Live(s', slot, next, 0, Contents(writes)) {
      LiveAfterCut(s', img, slot, next, 0, Contents(writes));
    } else {
      FirstSwitchingAfterCut(s', img, slot, next, Contents(writes));
    }
  }
}
