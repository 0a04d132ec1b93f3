/**
 Updates that stop at a failed write or at a commit that times out, with the power still on.
 The slot is left as a power cut might leave it, but the next update builds on what is visible,
 not on what is in flash.
 */
module ContainerFaults {
  import opened Basics
  import opened Flash
  import opened ResidentContainer
  import opened ContainerSafety
  import opened ContainerRuns

  /** A guarded update that fails leaves the old container, the new one, or durably both. */
  lemma FailedUpdateSound(s: Store, slot: nat, m: Manifest, c: nat, view: seq<Bytes>, writes: seq<Write>, good: nat)
    requires slot < 256 && Coherent(s) && Live(s, slot, m, c, view)
    requires m.generation < UINT32_MAX && ValidWrites(writes) && Guard(slot, m, c, writes)
    ensures var r := Attempt(s, UpdatePlan(s.vol, slot, writes).ops, good);
      var next := Successor(s.vol, slot, m, c, writes);
      && Coherent(r.state)
      && Sound(r.state, slot, m, c, view, next, Overwrite(view, writes))
      && (r.fault.None? ==> Live(r.state, slot, next, Other(c), Overwrite(view, writes)))
  {
    hide Sound, Live, UpdatePlan, Exec, Attempt, Successor;
    var j := AttemptStops(s, UpdatePlan(s.vol, slot, writes).ops, good);
    UpdateSound(s, slot, m, c, view, writes, j);
  }

  // ---------- A manifest whose commit times out ----------

  function RecordOps(files: Files, slot: nat, m: Manifest, c: nat, writes: seq<Write>): Log<File> {
    WriteRecords(files, slot, Other(c), m.objects, writes, 0).ops
  }

  /** The state after the records of an update are in flash and before its manifest is written. */
  function Recorded(s: Store, slot: nat, m: Manifest, c: nat, writes: seq<Write>): Store {
    Exec(s, RecordOps(s.vol, slot, m, c, writes) + [Sync])
  }

  function ManifestOps(s: Store, slot: nat, m: Manifest, c: nat, writes: seq<Write>): Log<File> {
    Replace(Recorded(s, slot, m, c, writes).vol, ManifestFid(slot, Other(c)),
      ManifestFile(Successor(s.vol, slot, m, c, writes)))
  }

  /** The manifest is written and visible, but its commit did not come through. */
  function Unpublished(s: Store, slot: nat, m: Manifest, c: nat, writes: seq<Write>): Store {
    Exec(Recorded(s, slot, m, c, writes), ManifestOps(s, slot, m, c, writes))
  }

  lemma RecordedIs(s: Store, slot: nat, m: Manifest, c: nat, writes: seq<Write>)
    ensures Recorded(s, slot, m, c, writes) == Boot(Apply(s.vol, RecordOps(s.vol, slot, m, c, writes)))
  {
    hide RecordOps;
    var ops := RecordOps(s.vol, slot, m, c, writes);
    ExecConcat(s, ops, [Sync]);
    ExecOne(Exec(s, ops), Sync);
    ExecVol(s, ops);
  }

  /** Such a commit can time out: the update then reports a failure in just this state. */
  lemma ManifestCommitMayFail(s: Store, slot: nat, m: Manifest, c: nat, view: seq<Bytes>, writes: seq<Write>)
    returns (good: nat)
    requires slot < 256 && Coherent(s) && Live(s, slot, m, c, view)
    requires m.generation < UINT32_MAX && ValidWrites(writes)
    ensures Attempt(s, UpdatePlan(s.vol, slot, writes).ops, good) ==
      Attempted(Unpublished(s, slot, m, c, writes), 0, Some(CommitFault))
  {
    hide Live, Exec, Attempt, Tail, Apply, WriteRecords, UpdatePlan;
    LivePlan(s, slot, m, c, view, writes);
    RecordedIs(s, slot, m, c, writes);
    var head := RecordOps(s.vol, slot, m, c, writes) + [Sync];
    var put := ManifestOps(s, slot, m, c, writes);
    var ops := UpdatePlan(s.vol, slot, writes).ops;
    assert ops[..|head + put|] == head + put && ops[|head + put|].Sync?;
    good := AttemptMayStop(s, ops, |head + put|);
    ExecConcat(s, head, put);
  }

  lemma UnpublishedSwitches(s: Store, slot: nat, m: Manifest, c: nat, view: seq<Bytes>, writes: seq<Write>)
    requires slot < 256 && Coherent(s) && Live(s, slot, m, c, view)
    requires m.generation < UINT32_MAX && ValidWrites(writes) && Guard(slot, m, c, writes)
    ensures var t := Unpublished(s, slot, m, c, writes);
      var next := Successor(s.vol, slot, m, c, writes);
      && Coherent(t)
      && Switching(t, slot, m, c, view, next, Overwrite(view, writes))
      && Live(Boot(t.vol), slot, next, Other(c), Overwrite(view, writes))
  {
    hide Live, Exec, Replace, Switching, Ready, Apply, WriteRecords, Successor;
    LiveShape(s, slot, m, c, view);
    var next, nview := Successor(s.vol, slot, m, c, writes), Overwrite(view, writes);
    SuccessorReady(s, slot, m, c, view, writes);
    var put := ManifestOps(s, slot, m, c, writes);
    assert put[..|put|] == put;
    ReplaceManifest(Recorded(s, slot, m, c, writes), slot, m, c, view, next, nview, |put|);
    var t := Unpublished(s, slot, m, c, writes);
    SwitchingAfterCut(t, t.vol, slot, m, c, view, next, nview);
  }

  /** The manifest an image settles on is the durable one, the unpublished one, or the one after it. */
  ghost predicate SettlesOnThree(img: Files, slot: nat, m: Manifest, c: nat, next: Manifest, last: Manifest) {
    Choose(img, slot) == Base(m, c) || Choose(img, slot) == Base(next, Other(c)) || Choose(img, slot) == Base(last, c)
  }

  ghost predicate RetryAtomic(t: Store, ops: Log<File>, slot: nat, m: Manifest, c: nat, next: Manifest,
                              last: Manifest) {
    forall j: nat, img: Files :: j <= |ops| && CrashImage(Exec(t, ops[..j]), img) ==>
      SettlesOnThree(img, slot, m, c, next, last)
  }

  // ---------- A retry that keeps clear of the durable manifest ----------

  predicate Bystander(op: Op<File>, slot: nat, m: Manifest, next: Manifest) {
    !op.Sync? && op.fid != MarkerFid(slot) && op.fid != ManifestFid(slot, 0) && op.fid != ManifestFid(slot, 1) &&
    !References(m, op.fid) && !References(next, op.fid)
  }

  lemma SwitchingStep(s: Store, op: Op<File>, slot: nat, m: Manifest, c: nat, view: seq<Bytes>, next: Manifest,
                      nview: seq<Bytes>)
    requires Switching(s, slot, m, c, view, next, nview) && Bystander(op, slot, m, next)
    ensures Switching(Step(s, op), slot, m, c, view, next, nview)
  {
    hide Carried;
    forall i | 0 <= i < 4 ensures m.objects[i].recordId != op.fid && next.objects[i].recordId != op.fid {
      assert References(m, m.objects[i].recordId) && References(next, next.objects[i].recordId);
    }
    CarriedStep(s, op, slot, m, view);
    CarriedStep(s, op, slot, next, nview);
    PossStep(s, op, ManifestFid(slot, c));
    PossStep(s, op, ManifestFid(slot, Other(c)));
    PossStep(s, op, MarkerFid(slot));
  }

  lemma {:induction false} SwitchingExec(s: Store, ops: Log<File>, slot: nat, m: Manifest, c: nat, view: seq<Bytes>,
                                         next: Manifest, nview: seq<Bytes>)
    requires Switching(s, slot, m, c, view, next, nview)
    requires forall i :: 0 <= i < |ops| ==> Bystander(ops[i], slot, m, next)
    ensures Switching(Exec(s, ops), slot, m, c, view, next, nview)
    decreases |ops|
  {
    hide Switching, Bystander;
    if ops != [] {
      SwitchingExec(s, ops[..|ops| - 1], slot, m, c, view, next, nview);
      SwitchingStep(Exec(s, ops[..|ops| - 1]), ops[|ops| - 1], slot, m, c, view, next, nview);
    }
  }

  /** No write of the retry is of an object whose record the durable manifest keeps in its own half. */
  ghost predicate KeepsClear(slot: nat, m: Manifest, c: nat, writes: seq<Write>)
    requires |m.objects| == 4
  {
    forall i :: 0 <= i < |writes| && TypeValid(writes[i].objectType) ==> !Own(slot, m, c, writes[i].objectType)
  }

  lemma NotReferenced(slot: nat, m: Manifest, h: nat, t: nat)
    requires slot < 256 && h < 2 && TypeValid(t)
    requires |m.objects| == 4 && forall i :: 0 <= i < 4 ==>
      m.objects[i].objectType == i + 1 && RecordIdValid(slot, m.objects[i])
    requires m.objects[t - 1].recordId != RecordFid(slot, h, t)
    ensures !References(m, RecordFid(slot, h, t))
  {
    FidForms(slot, h, t);
    forall i | 0 <= i < 4 ensures m.objects[i].recordId != RecordFid(slot, h, t) {
      FidForms(slot, 0, i + 1);
      FidForms(slot, 1, i + 1);
    }
  }

  /**
   An object the first update left alone, with its record away from the durable manifest, is in the
   unpublished one's half.
   */
  lemma ClearOfBoth(files: Files, slot: nat, m: Manifest, c: nat, writes: seq<Write>, t: nat)
    requires slot < 256 && Shape(slot, m, c) && m.generation < UINT32_MAX && ValidWrites(writes) &&
      Guard(slot, m, c, writes)
    requires TypeValid(t) && !Own(slot, m, c, t)
    ensures var next := Successor(files, slot, m, c, writes);
      && |next.objects| == 4
      && Own(slot, next, Other(c), t)
      && !References(m, RecordFid(slot, c, t)) && !References(next, RecordFid(slot, c, t))
  {
    hide Successor, References;
    SuccessorObjects(files, slot, m, c, writes);
    var next := Successor(files, slot, m, c, writes);
    WriteOfFinds(writes, 0, t);
    assert next.objects[t - 1] == Rewritten(slot, Other(c), m.objects[t - 1], WriteOf(writes, 0, t - 1 + 1));
    FidForms(slot, 0, t);
    FidForms(slot, 1, t);
    NotReferenced(slot, m, c, t);
    NotReferenced(slot, next, c, t);
  }

  lemma RetryRecordsClear(files: Files, slot: nat, m: Manifest, c: nat, first: seq<Write>, visible: Files,
                          retry: seq<Write>)
    requires slot < 256 && Shape(slot, m, c) && m.generation < UINT32_MAX
    requires ValidWrites(first) && Guard(slot, m, c, first) && ValidWrites(retry) && KeepsClear(slot, m, c, retry)
    ensures var next := Successor(files, slot, m, c, first);
      var ops := RecordOps(visible, slot, next, Other(c), retry);
      && |next.objects| == 4
      && Guard(slot, next, Other(c), retry)
      && forall i :: 0 <= i < |ops| ==> Bystander(ops[i], slot, m, next)
  {
    hide Successor, References, WriteRecords;
    var next := Successor(files, slot, m, c, first);
    SuccessorObjects(files, slot, m, c, first);
    var ops := RecordOps(visible, slot, next, Other(c), retry);
    forall i | 0 <= i < |retry| && TypeValid(retry[i].objectType)
      ensures Own(slot, next, Other(c), retry[i].objectType)
    {
      ClearOfBoth(files, slot, m, c, first, retry[i].objectType);
    }
    forall i | 0 <= i < |ops| ensures Bystander(ops[i], slot, m, next) {
      WriteRecordsOps(visible, slot, Other(Other(c)), next.objects, retry, 0, i);
      var j :| 0 <= j < |retry| && WritesTo(ops[i], slot, Other(Other(c)), retry, j);
      ClearOfBoth(files, slot, m, c, first, retry[j].objectType);
      RecordIsNeither(slot, c, retry[j].objectType);
    }
  }

  /** From its first commit on the retry is an ordinary update of the container that was unpublished. */
  lemma CommitForgets(t: Store, head: Log<File>, rest: Log<File>, j: nat)
    requires |head| < j <= |head + [Sync] + rest|
    ensures Exec(t, (head + [Sync] + rest)[..j]) == Exec(Boot(t.vol), (head + [Sync] + rest)[..j])
  {
    var k := j - |head| - 1;
    assert (head + [Sync] + rest)[..j] == head + [Sync] + rest[..k];
    ExecConcat(t, head + [Sync], rest[..k]);
    ExecConcat(Boot(t.vol), head + [Sync], rest[..k]);
    ExecConcat(t, head, [Sync]);
    ExecConcat(Boot(t.vol), head, [Sync]);
    ExecOne(Exec(t, head), Sync);
    ExecOne(Exec(Boot(t.vol), head), Sync);
    ExecVol(t, head);
    ExecVol(Boot(t.vol), head);
  }

  lemma ClearRetrySettles(s: Store, slot: nat, m: Manifest, c: nat, view: seq<Bytes>, first: seq<Write>,
                          retry: seq<Write>, j: nat, img: Files)
    requires slot < 256 && Coherent(s) && Live(s, slot, m, c, view) && m.generation + 1 < UINT32_MAX
    requires ValidWrites(first) && Guard(slot, m, c, first) && ValidWrites(retry) && KeepsClear(slot, m, c, retry)
    requires var t := Unpublished(s, slot, m, c, first);
      j <= |UpdatePlan(t.vol, slot, retry).ops| && CrashImage(Exec(t, UpdatePlan(t.vol, slot, retry).ops[..j]), img)
    ensures var t := Unpublished(s, slot, m, c, first);
      var next := Successor(s.vol, slot, m, c, first);
      SettlesOnThree(img, slot, m, c, next, Successor(t.vol, slot, next, Other(c), retry))
  {
    hide Live, Exec, UpdatePlan, Successor, Switching, Unpublished, WriteRecords, Publish, Guard, CrashImage, Bystander,
      KeepsClear;
    LiveShape(s, slot, m, c, view);
    var t := Unpublished(s, slot, m, c, first);
    var next, nview := Successor(s.vol, slot, m, c, first), Overwrite(view, first);
    UnpublishedSwitches(s, slot, m, c, view, first);
    RetryRecordsClear(s.vol, slot, m, c, first, t.vol, retry);
    BootCoherent(t.vol);
    SuccessorObjects(s.vol, slot, m, c, first);
    LivePlan(Boot(t.vol), slot, next, Other(c), nview, retry);
    var head := RecordOps(t.vol, slot, next, Other(c), retry);
    var rest := Publish(Apply(t.vol, head), slot, Other(Other(c)), Successor(t.vol, slot, next, Other(c), retry));
    var ops := UpdatePlan(t.vol, slot, retry).ops;
    assert ops == head + [Sync] + rest;
    if j <= |head| {
      assert ops[..j] == head[..j];
      SwitchingExec(t, head[..j], slot, m, c, view, next, nview);
      SwitchingAfterCut(Exec(t, head[..j]), img, slot, m, c, view, next, nview);
      BootCoherent(img);
      if Live(Boot(img), slot, next, Other(c), nview) {
        LiveLoads(Boot(img), img, slot, next, Other(c), nview);
      } else {
        LiveLoads(Boot(img), img, slot, m, c, view);
      }
    } else {
      CommitForgets(t, head, rest, j);
      GuardedSettles(Boot(t.vol), slot, next, Other(c), nview, retry, j, img);
    }
  }

  // ---------- A retry that rewrites what the durable manifest needs ----------

  /**
   The image in which the retry's record has reached flash and the unpublished manifest has not:
   the record is one the durable manifest still references, under a descriptor that is not its own.
   */
  lemma LosingImage(s: Store, slot: nat, m: Manifest, c: nat, view: seq<Bytes>, first: seq<Write>, retry: seq<Write>,
                    n: nat)
    returns (img: Files)
    requires slot < 256 && Coherent(s) && Live(s, slot, m, c, view) && m.generation + 1 < UINT32_MAX
    requires ValidWrites(first) && Guard(slot, m, c, first) && ValidWrites(retry)
    requires n < |retry| && Own(slot, m, c, retry[n].objectType)
    ensures var t := Unpublished(s, slot, m, c, first);
      var next := Successor(s.vol, slot, m, c, first);
      && CrashImage(Exec(t, RecordOps(t.vol, slot, next, Other(c), retry)), img)
      && !SettlesOnThree(img, slot, m, c, next, Successor(t.vol, slot, next, Other(c), retry))
  {
    hide Exec, Apply, WriteRecords, Live, Possible, Successor, Unpublished, Switching, SettlesOnThree, Recorded,
      ManifestOps, Guard;
    var t := Unpublished(s, slot, m, c, first);
    var next := Successor(s.vol, slot, m, c, first);
    var last := Successor(t.vol, slot, next, Other(c), retry);
    var u := retry[n].objectType;
    var fid := RecordFid(slot, c, u);
    LiveShape(s, slot, m, c, view);
    SuccessorObjects(s.vol, slot, m, c, first);
    SuccessorObjects(t.vol, slot, next, Other(c), retry);
    var record := Record(slot, last.objects[u - 1], retry[n].data);
    var base := Recorded(s, slot, m, c, first);
    var put, rec := ManifestOps(s, slot, m, c, first), RecordOps(t.vol, slot, next, Other(c), retry);
    RewrittenInPlace(t.vol, slot, next, Other(c), retry, n);
    ExecVol(t, rec);
    RetryNeedsNoCommit(s, slot, m, c, first, retry);
    assert Exec(base, put + rec) == Exec(t, rec) by {
      ExecConcat(base, put, rec);
      assert t == Exec(base, put) by { UnpublishedIs(s, slot, m, c, first); }
    }
    RecordedIs(s, slot, m, c, first);
    BootCoherent(base.vol);
    OneWriteImage(base, put + rec, fid, record);
    img := base.dur[fid := record];
    BaseHolds(s, slot, m, c, view, first);
    RecordIsNeither(slot, c, u);
    FirstLeaves(s.vol, slot, m, c, first, u);
    NeitherSettles(img, slot, m, c, next, t.vol, retry, u);
  }

  lemma RewrittenInPlace(files: Files, slot: nat, m: Manifest, c: nat, writes: seq<Write>, n: nat)
    requires slot < 256 && Shape(slot, m, c) && m.generation < UINT32_MAX && ValidWrites(writes) && n < |writes|
    ensures var t := writes[n].objectType;
      var next := Successor(files, slot, m, c, writes);
      && |next.objects| == 4
      && WriteOf(writes, 0, t) == Some(writes[n])
      && At(Apply(files, RecordOps(files, slot, m, c, writes)), RecordFid(slot, Other(c), t)) ==
           Some(Record(slot, next.objects[t - 1], writes[n].data))
  {
    hide Apply, WriteRecords, Find;
    SuccessorObjects(files, slot, m, c, writes);
    WriteRecordsFiles(files, slot, Other(c), m.objects, writes, 0, n);
    WriteOfFinds(writes, 0, writes[n].objectType);
  }

  lemma UnpublishedIs(s: Store, slot: nat, m: Manifest, c: nat, writes: seq<Write>)
    ensures Unpublished(s, slot, m, c, writes) ==
      Exec(Recorded(s, slot, m, c, writes), ManifestOps(s, slot, m, c, writes))
  {
  }

  lemma RetryNeedsNoCommit(s: Store, slot: nat, m: Manifest, c: nat, first: seq<Write>, retry: seq<Write>)
    ensures var t := Unpublished(s, slot, m, c, first);
      var ops := ManifestOps(s, slot, m, c, first) +
        RecordOps(t.vol, slot, Successor(s.vol, slot, m, c, first), Other(c), retry);
      forall i :: 0 <= i < |ops| ==> !ops[i].Sync?
  {
    hide Unpublished, WriteRecords, Recorded, Successor;
    var t := Unpublished(s, slot, m, c, first);
    var next := Successor(s.vol, slot, m, c, first);
    var rec := RecordOps(t.vol, slot, next, Other(c), retry);
    forall i | 0 <= i < |rec| ensures !rec[i].Sync? {
      WriteRecordsOps(t.vol, slot, Other(Other(c)), next.objects, retry, 0, i);
    }
  }

  /** With the records committed, flash holds the old manifest in its half and nothing as new in the other. */
  lemma BaseHolds(s: Store, slot: nat, m: Manifest, c: nat, view: seq<Bytes>, first: seq<Write>)
    requires slot < 256 && Coherent(s) && Live(s, slot, m, c, view)
    requires m.generation < UINT32_MAX && ValidWrites(first) && Guard(slot, m, c, first)
    ensures var files := Recorded(s, slot, m, c, first).dur;
      && At(files, ManifestFid(slot, c)) == Some(ManifestFile(m))
      && At(files, ManifestFid(slot, Other(c))) != Some(ManifestFile(Successor(s.vol, slot, m, c, first)))
  {
    hide Exec, Live, WriteRecords, Successor, Apply, Carried;
    SuccessorReady(s, slot, m, c, view, first);
    RecordedIs(s, slot, m, c, first);
    var base := Recorded(s, slot, m, c, first);
    assert Live(base, slot, m, c, view);
    LiveManifests(base, slot, m, c, view);
    SuccessorObjects(s.vol, slot, m, c, first) by { LiveShape(s, slot, m, c, view); }
  }

  lemma LiveManifests(s: Store, slot: nat, m: Manifest, c: nat, view: seq<Bytes>)
    requires Live(s, slot, m, c, view)
    ensures At(s.dur, ManifestFid(slot, c)) == Some(ManifestFile(m))
    ensures forall n: Manifest :: At(s.dur, ManifestFid(slot, Other(c))) == Some(ManifestFile(n)) ==>
      n.generation < m.generation
  {
    DurPossible(s.dur, s.log, ManifestFid(slot, c));
    DurPossible(s.dur, s.log, ManifestFid(slot, Other(c)));
  }

  /** An update never lowers an object's generation. */
  lemma FirstLeaves(files: Files, slot: nat, m: Manifest, c: nat, writes: seq<Write>, t: nat)
    requires slot < 256 && Shape(slot, m, c) && m.generation < UINT32_MAX && ValidWrites(writes) && TypeValid(t)
    ensures |Successor(files, slot, m, c, writes).objects| == 4
    ensures m.objects[t - 1].generation <= Successor(files, slot, m, c, writes).objects[t - 1].generation
    ensures WriteOf(writes, 0, t).Some? ==>
      m.objects[t - 1].generation < Successor(files, slot, m, c, writes).objects[t - 1].generation
  {
    hide Successor;
    SuccessorObjects(files, slot, m, c, writes);
    assert Successor(files, slot, m, c, writes).objects[t - 1] ==
      Rewritten(slot, Other(c), m.objects[t - 1], WriteOf(writes, 0, t - 1 + 1));
  }

  lemma NeitherSettles(img: Files, slot: nat, m: Manifest, c: nat, next: Manifest, visible: Files, retry: seq<Write>,
                       t: nat)
    requires slot < 256 && Shape(slot, m, c) && Shape(slot, next, Other(c)) && TypeValid(t) && Own(slot, m, c, t)
    requires next.generation < UINT32_MAX && m.generation < next.generation && ValidWrites(retry) &&
      WriteOf(retry, 0, t).Some?
    requires m.objects[t - 1].generation <= next.objects[t - 1].generation
    requires |Successor(visible, slot, next, Other(c), retry).objects| == 4
    requires At(img, RecordFid(slot, c, t)) ==
      Some(Record(slot, Successor(visible, slot, next, Other(c), retry).objects[t - 1],
        WriteOf(retry, 0, t).value.data))
    requires At(img, ManifestFid(slot, c)) == Some(ManifestFile(m))
    requires At(img, ManifestFid(slot, Other(c))) != Some(ManifestFile(next))
    ensures !SettlesOnThree(img, slot, m, c, next, Successor(visible, slot, next, Other(c), retry))
  {
    hide Successor, ManifestAccepted;
    SuccessorObjects(visible, slot, next, Other(c), retry);
    FirstLeaves(visible, slot, next, Other(c), retry, t);
    var last := Successor(visible, slot, next, Other(c), retry);
    assert Unseal(img, slot, m.objects[t - 1]).None?;
    ChosenOpens(img, slot, m, c);
    ChosenOpens(img, slot, next, Other(c));
    ChosenOpens(img, slot, last, c);
  }

  /** The manifest chosen opens completely and is the one in its half. */
  lemma ChosenOpens(img: Files, slot: nat, m: Manifest, c: nat)
    requires c < 2
    ensures Choose(img, slot) == Base(m, c) ==>
      Validates(img, slot, m) && At(img, ManifestFid(slot, c)) == Some(ManifestFile(m))
  {
    hide ManifestAccepted, Validates, CanCreate, ManifestFid;
  }

  /**
   After an update whose manifest was written but not committed, another update is safe against
   power cuts if and only if it rewrites no object whose record the manifest in flash keeps in
   its own half. A credential update after a credential update that failed there never is.
   */
  lemma RetryAtomicIffClear(s: Store, slot: nat, m: Manifest, c: nat, view: seq<Bytes>, first: seq<Write>,
                            retry: seq<Write>)
    requires slot < 256 && Coherent(s) && Live(s, slot, m, c, view) && m.generation + 1 < UINT32_MAX
    requires ValidWrites(first) && Guard(slot, m, c, first) && ValidWrites(retry)
    ensures |m.objects| == 4
    ensures var t := Unpublished(s, slot, m, c, first);
      var next := Successor(s.vol, slot, m, c, first);
      RetryAtomic(t, UpdatePlan(t.vol, slot, retry).ops, slot, m, c, next,
        Successor(t.vol, slot, next, Other(c), retry)) <==>
        KeepsClear(slot, m, c, retry)
  {
    hide Live, Exec, UpdatePlan, Successor, Unpublished, CrashImage, SettlesOnThree, RecordOps, Guard, Publish;
    LiveShape(s, slot, m, c, view);
    var t := Unpublished(s, slot, m, c, first);
    var next := Successor(s.vol, slot, m, c, first);
    var last := Successor(t.vol, slot, next, Other(c), retry);
    var ops := UpdatePlan(t.vol, slot, retry).ops;
    if KeepsClear(slot, m, c, retry) {
      forall j: nat, img: Files | j <= |ops| && CrashImage(Exec(t, ops[..j]), img)
        ensures SettlesOnThree(img, slot, m, c, next, last)
      {
        ClearRetrySettles(s, slot, m, c, view, first, retry, j, img);
      }
    } else {
      var n :| 0 <= n < |retry| && TypeValid(retry[n].objectType) && Own(slot, m, c, retry[n].objectType);
      var img := LosingImage(s, slot, m, c, view, first, retry, n);
      var head := RecordOps(t.vol, slot, next, Other(c), retry);
      RetryStarts(s, slot, m, c, view, first, retry);
      assert ops[..|head|] == head;
      assert CrashImage(Exec(t, ops[..|head|]), img);
    }
  }

  lemma RetryStarts(s: Store, slot: nat, m: Manifest, c: nat, view: seq<Bytes>, first: seq<Write>, retry: seq<Write>)
    requires slot < 256 && Coherent(s) && Live(s, slot, m, c, view) && m.generation + 1 < UINT32_MAX
    requires ValidWrites(first) && Guard(slot, m, c, first) && ValidWrites(retry)
    ensures var t := Unpublished(s, slot, m, c, first);
      RecordOps(t.vol, slot, Successor(s.vol, slot, m, c, first), Other(c), retry) <= UpdatePlan(t.vol, slot, retry).ops
  {
    hide Live, Exec, Successor, Unpublished, Publish, Switching, Guard, UpdatePlan, WriteRecords;
    var t := Unpublished(s, slot, m, c, first);
    LiveShape(s, slot, m, c, view);
    UnpublishedSwitches(s, slot, m, c, view, first);
    BootCoherent(t.vol);
    SuccessorObjects(s.vol, slot, m, c, first);
    LivePlan(Boot(t.vol), slot, Successor(s.vol, slot, m, c, first), Other(c), Overwrite(view, first), retry);
  }

  /**
   Two credential updates in a row, the first stopped at its manifest's commit: some power cut during
   the second loses the container.
   */
  lemma CredentialRetryLoses(s: Store, slot: nat, m: Manifest, c: nat, view: seq<Bytes>, first: Bytes, retry: Bytes)
    requires slot < 256 && Coherent(s) && Live(s, slot, m, c, view) && m.generation + 1 < UINT32_MAX
    requires |m.objects| == 4 && Own(slot, m, c, CREDENTIAL)
    ensures var (a, b) := ([CredentialWrite(first)], [CredentialWrite(retry)]);
      var t := Unpublished(s, slot, m, c, a);
      var next := Successor(s.vol, slot, m, c, a);
      && (exists good :: Attempt(s, UpdatePlan(s.vol, slot, a).ops, good) == Attempted(t, 0, Some(CommitFault)))
      && !RetryAtomic(t, UpdatePlan(t.vol, slot, b).ops, slot, m, c, next, Successor(t.vol, slot, next, Other(c), b))
  {
    hide Live, Exec, UpdatePlan, Successor, Unpublished, RetryAtomic, Attempt;
    var a, b := [CredentialWrite(first)], [CredentialWrite(retry)];
    LiveShape(s, slot, m, c, view);
    CredentialUpdateGuarded(slot, m, c, first);
    CredentialUpdateGuarded(slot, m, c, retry);
    assert a == WritesOf(UpdateCredential(first)) && b == WritesOf(UpdateCredential(retry));
    assert b[0].objectType == CREDENTIAL;
    var good := ManifestCommitMayFail(s, slot, m, c, view, a);
    RetryAtomicIffClear(s, slot, m, c, view, a, b);
  }
}
