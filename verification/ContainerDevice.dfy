/**
 The container procedures as the firmware runs them: files replaced and deleted in
 sequence, the manifest under construction edited in a loop. Each method issues exactly
 the flash operations of its plan.
 */
module ContainerDevice {
  import opened Basics
  import opened Flash
  import opened ResidentContainer

  class Device {
    var files: Files
    var good: nat
    ghost var state: State<File>

    ghost predicate Valid()
      reads this
    {
      state.vol == files
    }

    /** The next `good` writes and commits will succeed. */
    constructor (image: Files, good: nat)
      ensures Valid() && state == Boot(image) && this.good == good
    {
      files := image;
      this.good := good;
      state := Boot(image);
    }

    // ---------- File primitives ----------

    method DeleteFile(fid: nat)
      requires Valid()
      modifies this`files, this`state
      ensures Valid() && state == Step(old(state), Del(fid))
    {
      files := files - {fid};
      state := Step(state, Del(fid));
    }

    method PutFile(fid: nat, file: File) returns (fault: Option<Fault>)
      requires Valid()
      modifies this
      ensures Valid() && Attempted(state, good, fault) == Attempt(old(state), [Put(fid, file)], old(good))
    {
      OneOperation(state, Put(fid, file), good);
      if good == 0 {
        return Some(WriteFault);
      }
      good := good - 1;
      files := files[fid := file];
      state := Step(state, Put(fid, file));
      fault := None;
    }

    method CommitSync() returns (fault: Option<Fault>)
      requires Valid()
      modifies this`good, this`state
      ensures Valid() && Attempted(state, good, fault) == Attempt(old(state), [Sync], old(good))
    {
      OneOperation(state, Sync, good);
      if good == 0 {
        return Some(CommitFault);
      }
      good := good - 1;
      state := Step(state, Sync);
      fault := None;
    }

    method ReplaceFile(fid: nat, file: File) returns (fault: Option<Fault>)
      requires Valid()
      modifies this
      ensures Valid() && Attempted(state, good, fault) == Attempt(old(state), Replace(old(files), fid, file), old(good))
      ensures fault.None? ==> files == old(files)[fid := file]
    {
      AttemptConcat(state, [Del(fid)], [Put(fid, file)], good);
      OneOperation(state, Del(fid), good);
      if fid in files {
        DeleteFile(fid);
      }
      OneOperation(state, Put(fid, file), good);
      fault := PutFile(fid, file);
    }

    /** Deletes a file if it is there; `rest` is what remains to be deleted after it. */
    method RemoveFile(fid: nat, ghost rest: seq<nat>)
      requires Valid()
      modifies this`files, this`state
      ensures Valid()
      ensures Exec(old(state), Remove(old(files), [fid] + rest)) == Exec(state, Remove(files, rest))
    {
      assert ([fid] + rest)[1..] == rest;
      if fid in files {
        ghost var before := state;
        DeleteFile(fid);
        ExecConcat(before, [Del(fid)], Remove(files, rest));
        OneOperation(before, Del(fid), 0);
      }
    }

    // ---------- Selecting a manifest ----------

    method AcceptsManifest(slot: nat, m: Manifest) returns (ok: bool)
      requires Valid()
      ensures ok == ManifestAccepted(files, slot, m)
    {
      if m.containerId != slot || m.objects == [] {
        return false;
      }
      for i := 0 to |m.objects|
        invariant forall n :: 0 <= n < i ==> RecordIdValid(slot, m.objects[n])
        invariant forall n, j :: 0 <= j < n < i ==> m.objects[j].objectType != m.objects[n].objectType
        invariant forall n :: 0 <= n < i ==> HeaderAccepts(files, m.objects[n])
      {
        if !RecordIdValid(slot, m.objects[i]) {
          return false;
        }
        for j := 0 to i
          invariant forall n :: 0 <= n < j ==> m.objects[n].objectType != m.objects[i].objectType
        {
          if m.objects[j].objectType == m.objects[i].objectType {
            return false;
          }
        }
        if !HeaderAccepts(files, m.objects[i]) {
          return false;
        }
      }
      ok := true;
    }

    method ParseManifest(slot: nat, k: nat) returns (candidate: Option<Manifest>)
      requires Valid()
      ensures candidate == ParseSlot(files, slot, k)
    {
      var fid := ManifestFid(slot, k);
      if fid !in files || !files[fid].ManifestFile? {
        return None;
      }
      var ok := AcceptsManifest(slot, files[fid].manifest);
      candidate := if ok then Some(files[fid].manifest) else None;
    }

    method LoadManifest(slot: nat) returns (loading: Loading)
      requires Valid()
      ensures loading == Load(files, slot)
    {
      var storagePresent := false;
      var current: Loading := Missing;
      for k := 0 to 2
        invariant storagePresent ==
          ((k > 0 && HasData(files, ManifestFid(slot, 0))) || (k > 1 && HasData(files, ManifestFid(slot, 1))))
        invariant k == 0 ==> current == Missing
        invariant k == 1 ==>
          current == (match ParseSlot(files, slot, 0) case Some(a) => Loaded(a, 0) case None => Missing)
        invariant k == 2 && current.Missing? ==> ParseSlot(files, slot, 0).None? && ParseSlot(files, slot, 1).None?
        invariant k == 2 && !current.Missing? ==> current == Load(files, slot)
      {
        storagePresent := storagePresent || HasData(files, ManifestFid(slot, k));
        var candidate := ParseManifest(slot, k);
        if candidate.Some? {
          if current.Loaded? && current.manifest.generation == candidate.value.generation {
            return Damaged;
          }
          if !current.Loaded? || candidate.value.generation > current.manifest.generation {
            current := Loaded(candidate.value, k);
          }
        }
      }
      if current.Loaded? {
        return current;
      }
      loading := if storagePresent then Damaged else Missing;
    }

    method ValidateManifest(slot: nat, m: Manifest) returns (ok: bool)
      requires Valid()
      ensures ok == Validates(files, slot, m)
    {
      for i := 0 to |m.objects|
        invariant forall n :: 0 <= n < i ==>
          var plain := Unseal(files, slot, m.objects[n]);
          plain.Some? && |plain.value| == m.objects[n].logicalSize
      {
        var plain := Unseal(files, slot, m.objects[i]);
        if plain.None? || |plain.value| != m.objects[i].logicalSize {
          return false;
        }
      }
      ok := true;
    }

    method CanCreateAt(slot: nat) returns (ok: bool)
      requires Valid()
      ensures ok == CanCreate(files, slot)
    {
      if ManifestFid(slot, 0) in files || ManifestFid(slot, 1) in files {
        var loading := LoadManifest(slot);
        if !loading.Loaded? {
          return false;
        }
        ok := ValidateManifest(slot, loading.manifest);
        return;
      }
      for k := 0 to 2
        invariant forall h, t :: 0 <= h < k && RP_ID_HASH <= t <= PUBLIC_KEY && RecordFid(slot, h, t) in files ==>
          files[RecordFid(slot, h, t)].Record?
      {
        for t := RP_ID_HASH to PUBLIC_KEY + 1
          invariant forall u :: RP_ID_HASH <= u < t && RecordFid(slot, k, u) in files ==>
            files[RecordFid(slot, k, u)].Record?
        {
          if RecordFid(slot, k, t) in files && !files[RecordFid(slot, k, t)].Record? {
            return false;
          }
        }
      }
      ok := true;
    }

    /** The manifest to build on, falling back to the other half when the newest does not open. */
    method ChooseBase(slot: nat) returns (choice: Choice)
      requires Valid()
      ensures choice == Choose(files, slot)
    {
      var loading := LoadManifest(slot);
      if loading.Damaged? {
        return Refused(WrongData);
      }
      if loading.Missing? {
        var ok := CanCreateAt(slot);
        return if ok then Fresh else Refused(WrongData);
      }
      var ok := ValidateManifest(slot, loading.manifest);
      if ok {
        return Base(loading.manifest, loading.half);
      }
      var previous := ParseManifest(slot, Other(loading.half));
      if previous.Some? {
        ok := ValidateManifest(slot, previous.value);
        if ok {
          return Base(previous.value, Other(loading.half));
        }
      }
      choice := Refused(Unreadable);
    }

    // ---------- Update ----------

    /** Writes the records and edits the object array of the next manifest; a fault ends the loop. */
    method WriteAll(slot: nat, target: nat, base: seq<Descriptor>, writes: seq<Write>)
      returns (objects: seq<Descriptor>, status: Status, fault: Option<Fault>)
      requires Valid()
      modifies this
      ensures Valid()
      ensures var w := WriteRecords(old(files), slot, target, base, writes, 0);
        && Attempted(state, good, fault) == Attempt(old(state), w.ops, old(good))
        && (fault.None? ==> status == w.status && objects == w.objects && files == Apply(old(files), w.ops))
    {
      hide Apply, Exec, Attempt, Replace, Find, RecordFid, Step;
      objects, status, fault := base, Ok, None;
      ghost var all := WriteRecords(files, slot, target, base, writes, 0);
      ExecVol(state, all.ops);
      NoFaultRuns(state, all.ops, good);
      var i := 0;
      while i < |writes|
        invariant Valid() && i <= |writes| && fault.None?
        invariant var rest := WriteRecords(files, slot, target, objects, writes, i);
          && all.status == rest.status
          && all.objects == rest.objects
          && Attempt(old(state), all.ops, old(good)) == Attempt(state, rest.ops, good)
      {
        var w := writes[i];
        if WriteRefused(writes, i) {
          NothingLeft(state, good);
          return objects, WrongData, None;
        }
        var at := Find(objects, w.objectType);
        if at < |objects| && objects[at].generation == UINT32_MAX {
          NothingLeft(state, good);
          return objects, WrongData, None;
        }
        var d := NewDescriptor(slot, target, w, if at < |objects| then objects[at].generation + 1 else 1);
        ghost var before, goodBefore := state, good;
        ghost var turn := Replace(files, d.recordId, Record(slot, d, w.data));
        ghost var written := files[d.recordId := Record(slot, d, w.data)];
        fault := ReplaceFile(d.recordId, Record(slot, d, w.data));
        if at == |objects| >= MAX_OBJECTS {
          return objects, NoMemory, fault;
        }
        objects := if at < |objects| then objects[at := d] else objects + [d];
        AttemptConcat(before, turn, WriteRecords(written, slot, target, objects, writes, i + 1).ops, goodBefore);
        if fault.Some? {
          return;
        }
        i := i + 1;
      }
      NothingLeft(state, good);
      status := Ok;
    }

    method WriteMarker(slot: nat) returns (fault: Option<Fault>)
      requires Valid()
      modifies this
      ensures Valid() && Attempted(state, good, fault) == Attempt(old(state), MarkerOps(old(files), slot), old(good))
    {
      fault := None;
      if !IsMarker(files, slot) {
        AttemptConcat(state, Replace(files, MarkerFid(slot), Marker(slot)), [Sync], good);
        fault := ReplaceFile(MarkerFid(slot), Marker(slot));
        if fault.None? {
          fault := CommitSync();
        }
      }
    }

    /** Deletes what `m` does not need in one half; `later` is what remains to be deleted after. */
    method CollectHalf(slot: nat, target: nat, m: Manifest, k: nat, ghost later: seq<nat>)
      requires Valid()
      modifies this`files, this`state
      ensures Valid()
      ensures Exec(old(state), Remove(old(files), HalfGarbage(slot, target, m, k) + later)) ==
        Exec(state, Remove(files, later))
    {
      hide Exec, Remove, UnreferencedRecords, RecordFid, References;
      var t := RP_ID_HASH;
      if k != target {
        assert HalfGarbage(slot, target, m, k) + later ==
          [ManifestFid(slot, k)] + (UnreferencedRecords(slot, k, m, t) + later);
        RemoveFile(ManifestFid(slot, k), UnreferencedRecords(slot, k, m, t) + later);
      } else {
        assert HalfGarbage(slot, target, m, k) + later == UnreferencedRecords(slot, k, m, t) + later;
      }
      while t <= PUBLIC_KEY
        invariant Valid() && RP_ID_HASH <= t <= PUBLIC_KEY + 1
        invariant Exec(old(state), Remove(old(files), HalfGarbage(slot, target, m, k) + later)) ==
          Exec(state, Remove(files, UnreferencedRecords(slot, k, m, t) + later))
      {
        UnreferencedStep(slot, k, m, t, later);
        var fid := RecordFid(slot, k, t);
        if !References(m, fid) {
          RemoveFile(fid, UnreferencedRecords(slot, k, m, t + 1) + later);
        }
        t := t + 1;
      }
      UnreferencedEnd(slot, k, m, t, later);
    }

    /** Deletes the other manifest and every record `m` does not reference. */
    method Collect(slot: nat, target: nat, m: Manifest)
      requires Valid()
      modifies this`files, this`state
      ensures Valid() && state == Exec(old(state), Remove(old(files), Garbage(slot, target, m)))
    {
      for k := 0 to 2
        invariant Valid()
        invariant Exec(old(state), Remove(old(files), Garbage(slot, target, m))) ==
          Exec(state, Remove(files, if k == 0 then Garbage(slot, target, m)
            else if k == 1 then HalfGarbage(slot, target, m, 1) else []))
      {
        assert HalfGarbage(slot, target, m, 1) + [] == HalfGarbage(slot, target, m, 1);
        CollectHalf(slot, target, m, k, if k == 0 then HalfGarbage(slot, target, m, 1) else []);
      }
    }

    method CommitUpdate(slot: nat, target: nat, base: Manifest, writes: seq<Write>) returns (status: Status)
      requires Valid()
      modifies this
      ensures Valid()
      ensures var plan := Commit(old(files), slot, target, base, writes);
        var r := Attempt(old(state), plan.ops, old(good));
        status == Conclude(plan.status, r.fault) && state == r.state && good == r.good
    {
      hide Attempt, Apply, Exec, WriteRecords, Replace, Remove, Garbage, MarkerOps;
      ghost var s0, g0, f0 := state, good, files;
      ghost var w := WriteRecords(files, slot, target, base.objects, writes, 0);
      var objects, fault;
      objects, status, fault := WriteAll(slot, target, base.objects, writes);
      if fault.Some? || status != Ok {
        CommitStops(s0, f0, slot, target, base, writes, g0);
        status := Conclude(status, fault);
        return;
      }
      var next := base.(objects := objects);
      ghost var rest := Publish(files, slot, target, next);
      AttemptConcat(s0, w.ops, [Sync] + rest, g0);
      assert w.ops + [Sync] + rest == w.ops + ([Sync] + rest);
      AttemptConcat(state, [Sync], rest, good);
      fault := CommitSync();
      if fault.Some? {
        return Conclude(Ok, fault);
      }
      ghost var put := Replace(files, ManifestFid(slot, target), ManifestFile(next));
      ghost var tail := Tail(Apply(files, put), slot, target, next);
      assert rest == put + ([Sync] + tail);
      AttemptConcat(state, put, [Sync] + tail, good);
      ghost var f1 := files;
      fault := ReplaceFile(ManifestFid(slot, target), ManifestFile(next));
      if fault.Some? {
        return Conclude(Ok, fault);
      }
      ReplaceApply(f1, ManifestFid(slot, target), ManifestFile(next));
      AttemptConcat(state, [Sync], tail, good);
      fault := CommitSync();
      if fault.Some? {
        return Conclude(Ok, fault);
      }
      ghost var marker := MarkerOps(files, slot);
      ghost var gc := Remove(Apply(files, marker), Garbage(slot, target, next));
      AttemptConcat(state, marker, gc, good);
      NoFaultRuns(state, marker, good);
      ExecVol(state, marker);
      fault := WriteMarker(slot);
      if fault.Some? {
        return Conclude(Ok, fault);
      }
      RemovesRun(state, files, Garbage(slot, target, next), good);
      Collect(slot, target, next);
      status := Ok;
    }

    method Update(slot: nat, writes: seq<Write>) returns (status: Status)
      requires Valid()
      modifies this
      ensures Valid()
      ensures var plan := UpdatePlan(old(files), slot, writes);
        var r := Attempt(old(state), plan.ops, old(good));
        status == Conclude(plan.status, r.fault) && state == r.state && good == r.good
    {
      if writes == [] || |writes| > MAX_OBJECTS {
        return NullParam;
      }
      var choice := ChooseBase(slot);
      match choice
      case Refused(refusal) =>
        status := refusal;
      case Fresh =>
        status := CommitUpdate(slot, 0, FirstManifest(slot), writes);
      case Base(m, c) =>
        if m.generation == UINT32_MAX || m.extensionSize != 0 {
          return WrongData;
        }
        status := CommitUpdate(slot, Other(c), Bumped(m), writes);
    }

    // ---------- The other operations ----------

    method DeleteContainer(slot: nat) returns (status: Status)
      requires Valid()
      modifies this
      ensures Valid()
      ensures var plan := DeletePlan(old(files), slot);
        var r := Attempt(old(state), plan.ops, old(good));
        status == Conclude(plan.status, r.fault) && state == r.state && good == r.good
    {
      if !IsMarker(files, slot) {
        return NotFound;
      }
      var loading := LoadManifest(slot);
      if loading.Damaged? {
        return WrongData;
      }
      if loading.Missing? {
        return NotFound;
      }
      ghost var before := state;
      ghost var gone := Remove(files, DeleteFids(slot));
      RemovesRun(before, files, DeleteFids(slot), good);
      AttemptConcat(before, gone, [Sync], good);
      var fids := DeleteFids(slot);
      for i := 0 to |fids|
        invariant Valid() && good == old(good) && Exec(before, gone) == Exec(state, Remove(files, fids[i..]))
      {
        assert fids[i..] == [fids[i]] + fids[i + 1..];
        RemoveFile(fids[i], fids[i + 1..]);
      }
      var fault := CommitSync();
      status := Conclude(Ok, fault);
    }

    method ReadObject(slot: nat, objectType: nat) returns (data: Option<Bytes>, status: Status)
      requires Valid()
      ensures data == Read(files, slot, objectType) && status == ReadStatus(files, slot, objectType)
    {
      var loading := LoadManifest(slot);
      if !loading.Loaded? {
        return None, if loading.Damaged? then WrongData else NotFound;
      }
      status := Ok;
      for attempt := 0 to 2
        invariant attempt > 0 ==> ReadFrom(files, slot, loading.manifest, objectType).None?
        invariant attempt > 1 ==> Read(files, slot, objectType).None?
        invariant attempt == 0 ==> status == Ok
        invariant attempt == 1 ==>
          status == if Find(loading.manifest.objects, objectType) < |loading.manifest.objects| then Unreadable else Ok
        invariant attempt == 2 ==> status == ReadStatus(files, slot, objectType)
      {
        var candidate: Option<Manifest>;
        if attempt == 0 {
          candidate := Some(loading.manifest);
        } else {
          candidate := ParseManifest(slot, Other(loading.half));
        }
        if candidate.Some? {
          var at := Find(candidate.value.objects, objectType);
          if at < |candidate.value.objects| {
            data := Unseal(files, slot, candidate.value.objects[at]);
            if data.Some? {
              return data, Ok;
            }
            status := Unreadable;
          }
        }
      }
      data := None;
    }
  }

  lemma UnreferencedStep(slot: nat, k: nat, m: Manifest, t: nat, later: seq<nat>)
    requires 1 <= t <= PUBLIC_KEY
    ensures UnreferencedRecords(slot, k, m, t) + later ==
      (if References(m, RecordFid(slot, k, t)) then [] else [RecordFid(slot, k, t)]) +
        (UnreferencedRecords(slot, k, m, t + 1) + later)
    ensures [] + (UnreferencedRecords(slot, k, m, t + 1) + later) == UnreferencedRecords(slot, k, m, t + 1) + later
  {
  }

  lemma UnreferencedEnd(slot: nat, k: nat, m: Manifest, t: nat, later: seq<nat>)
    requires t == PUBLIC_KEY + 1
    ensures UnreferencedRecords(slot, k, m, t) + later == later
  {
  }

  lemma OneOperation(s: State<File>, op: Op<File>, good: nat)
    ensures Attempt(s, [op], good) ==
      if op.Del? then Attempted(Step(s, op), good, None)
      else if good == 0 then Attempted(s, 0, Some(if op.Sync? then CommitFault else WriteFault))
      else Attempted(Step(s, op), good - 1, None)
    ensures Exec(s, [op]) == Step(s, op)
  {
    assert [op][1..] == [] && [op][..0] == [];
  }

  lemma NothingLeft(s: State<File>, good: nat)
    ensures Attempt(s, [], good) == Attempted(s, good, None)
  {
  }

  lemma NoFaultRuns(s: State<File>, ops: Log<File>, good: nat)
    ensures Attempt(s, ops, good).fault.None? ==> Attempt(s, ops, good).state == Exec(s, ops)
  {
    var j := AttemptStops(s, ops, good);
    assert ops[..|ops|] == ops;
  }

  /** Deletions all go through. */
  lemma {:induction false} DeletionsRun(s: State<File>, ops: Log<File>, good: nat)
    requires forall i :: 0 <= i < |ops| ==> ops[i].Del?
    ensures Attempt(s, ops, good) == Attempted(Exec(s, ops), good, None)
    decreases |ops|
  {
    if ops != [] {
      DeletionsRun(Step(s, ops[0]), ops[1..], good);
      ExecFirst(s, ops, |ops|);
      assert ops[..|ops|] == ops && ops[1..][..|ops| - 1] == ops[1..];
    }
  }

  lemma RemovesRun(s: State<File>, files: Files, fids: seq<nat>, good: nat)
    ensures Attempt(s, Remove(files, fids), good) == Attempted(Exec(s, Remove(files, fids)), good, None)
  {
    RemoveOps(files, fids);
    DeletionsRun(s, Remove(files, fids), good);
  }

  /** An update whose record loop stops, at a refusal or at a fault, goes no further. */
  lemma CommitStops(s: State<File>, files: Files, slot: nat, target: nat, base: Manifest, writes: seq<Write>, good: nat)
    ensures var w := WriteRecords(files, slot, target, base.objects, writes, 0);
      var plan := Commit(files, slot, target, base, writes);
      var r := Attempt(s, w.ops, good);
      (r.fault.Some? || w.status != Ok ==>
         Attempt(s, plan.ops, good) == r && (r.fault.None? ==> plan.status == w.status))
  {
    hide WriteRecords, Publish, Attempt;
    var w := WriteRecords(files, slot, target, base.objects, writes, 0);
    if w.status == Ok {
      var rest := [Sync] + Publish(Apply(files, w.ops), slot, target, base.(objects := w.objects));
      assert Commit(files, slot, target, base, writes).ops == w.ops + rest;
      AttemptConcat(s, w.ops, rest, good);
    }
  }
}
