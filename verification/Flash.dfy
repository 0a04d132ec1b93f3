/**
 The flash file system as the firmware sees it. Every store has a volatile view,
 which reads and writes go to, and a durable one, which survives a power cut.
 Writes and deletions queue up until a synchronous commit; until then any subset
 of them may have reached flash, as long as the operations on one file keep their
 order. Replacing the contents of one file is atomic.
 */
module Flash {
  import opened Basics

  datatype Op<F> = Put(fid: nat, file: F) | Del(fid: nat) | Sync

  type Log<F> = seq<Op<F>>

  datatype State<F> = State(vol: map<nat, F>, dur: map<nat, F>, log: Log<F>)

  /** How a write that must reach flash before anything else turns out. */
  datatype Persisted = WriteFails | CommitTimesOut | Durable

  function At<F>(files: map<nat, F>, fid: nat): Option<F> {
    if fid in files then Some(files[fid]) else None
  }

  function Touches<F>(op: Op<F>, fid: nat): bool {
    !op.Sync? && op.fid == fid
  }

  function Effect<F>(op: Op<F>): Option<F> {
    if op.Put? then Some(op.file) else None
  }

  function Boot<F>(files: map<nat, F>): State<F> {
    State(files, files, [])
  }

  function ApplyOne<F>(files: map<nat, F>, op: Op<F>): map<nat, F> {
    match op
    case Put(fid, file) => files[fid := file]
    case Del(fid) => files - {fid}
    case Sync => files
  }

  function Step<F>(s: State<F>, op: Op<F>): State<F> {
    if op.Sync? then State(s.vol, s.vol, [])
    else State(ApplyOne(s.vol, op), s.dur, s.log + [op])
  }

  function Exec<F>(s: State<F>, ops: Log<F>): State<F> {
    if ops == [] then s else Step(Exec(s, ops[..|ops| - 1]), ops[|ops| - 1])
  }

  function Apply<F>(files: map<nat, F>, ops: Log<F>): map<nat, F> {
    if ops == [] then files else ApplyOne(Apply(files, ops[..|ops| - 1]), ops[|ops| - 1])
  }

  /** Every content a file may turn out to have if the power fails now. */
  ghost function Possible<F>(dur: map<nat, F>, log: Log<F>, fid: nat): iset<Option<F>> {
    if log == [] then iset{At(dur, fid)}
    else
      var op := log[|log| - 1];
      Possible(dur, log[..|log| - 1], fid) + (if Touches(op, fid) then iset{Effect(op)} else iset{})
  }

  ghost function Poss<F>(s: State<F>, fid: nat): iset<Option<F>> {
    Possible(s.dur, s.log, fid)
  }

  /** `img` is what flash may hold after a power cut in state `s`. */
  ghost predicate CrashImage<F>(s: State<F>, img: map<nat, F>) {
    forall fid: nat :: At(img, fid) in Poss(s, fid)
  }

  /** The volatile view is one of the images the queued operations can produce. */
  ghost predicate Coherent<F>(s: State<F>) {
    CrashImage(s, s.vol)
  }

  lemma BootCoherent<F>(files: map<nat, F>)
    ensures Coherent(Boot(files))
    ensures forall fid: nat :: Poss(Boot(files), fid) == iset{At(files, fid)}
  {
  }

  lemma PossAppend<F>(dur: map<nat, F>, log: Log<F>, op: Op<F>, fid: nat)
    ensures Possible(dur, log + [op], fid) ==
      Possible(dur, log, fid) + (if Touches(op, fid) then iset{Effect(op)} else iset{})
  {
    var longer := log + [op];
    assert longer[..|longer| - 1] == log;
    assert longer[|longer| - 1] == op;
  }

  lemma PossStep<F>(s: State<F>, op: Op<F>, fid: nat)
    ensures op.Sync? ==> Poss(Step(s, op), fid) == iset{At(s.vol, fid)}
    ensures !op.Sync? && op.fid == fid ==> Poss(Step(s, op), fid) == Poss(s, fid) + iset{Effect(op)}
    ensures !op.Sync? && op.fid != fid ==> Poss(Step(s, op), fid) == Poss(s, fid)
  {
    if !op.Sync? {
      PossAppend(s.dur, s.log, op, fid);
    }
  }

  lemma CoherentStep<F>(s: State<F>, op: Op<F>)
    requires Coherent(s)
    ensures Coherent(Step(s, op))
  {
    forall fid: nat ensures At(Step(s, op).vol, fid) in Poss(Step(s, op), fid) {
      PossStep(s, op, fid);
      assert At(s.vol, fid) in Poss(s, fid);
    }
  }

  lemma {:induction false} CoherentExec<F>(s: State<F>, ops: Log<F>)
    requires Coherent(s)
    ensures Coherent(Exec(s, ops))
    decreases |ops|
  {
    if ops != [] {
      CoherentExec(s, ops[..|ops| - 1]);
      CoherentStep(Exec(s, ops[..|ops| - 1]), ops[|ops| - 1]);
    }
  }

  lemma {:induction false} ExecVol<F>(s: State<F>, ops: Log<F>)
    ensures Exec(s, ops).vol == Apply(s.vol, ops)
    decreases |ops|
  {
    if ops != [] {
      ExecVol(s, ops[..|ops| - 1]);
    }
  }

  lemma {:induction false} ExecConcat<F>(s: State<F>, a: Log<F>, b: Log<F>)
    ensures Exec(s, a + b) == Exec(Exec(s, a), b)
    decreases |b|
  {
    if b == [] {
      assert a + b == a;
    } else {
      assert (a + b)[..|a + b| - 1] == a + b[..|b| - 1];
      ExecConcat(s, a, b[..|b| - 1]);
    }
  }

  lemma {:induction false} ApplyConcat<F>(files: map<nat, F>, a: Log<F>, b: Log<F>)
    ensures Apply(files, a + b) == Apply(Apply(files, a), b)
    decreases |b|
  {
    if b == [] {
      assert a + b == a;
    } else {
      assert (a + b)[..|a + b| - 1] == a + b[..|b| - 1];
      ApplyConcat(files, a, b[..|b| - 1]);
    }
  }

  lemma ApplySingle<F>(files: map<nat, F>, op: Op<F>)
    ensures Apply(files, [op]) == ApplyOne(files, op)
  {
    assert [op][..0] == [];
  }

  /** Operations that never mention a file leave it and its possible contents alone. */
  lemma {:induction false} ApplyFrame<F>(files: map<nat, F>, ops: Log<F>, fid: nat)
    requires forall i :: 0 <= i < |ops| ==> !Touches(ops[i], fid)
    ensures At(Apply(files, ops), fid) == At(files, fid)
    decreases |ops|
  {
    if ops != [] {
      ApplyFrame(files, ops[..|ops| - 1], fid);
    }
  }

  /** Replacing a file: delete what is there, then write the new contents. */
  function Replace<F>(files: map<nat, F>, fid: nat, file: F): Log<F> {
    (if fid in files then [Del(fid)] else []) + [Put(fid, file)]
  }

  lemma ReplaceApply<F>(files: map<nat, F>, fid: nat, file: F)
    ensures Apply(files, Replace(files, fid, file)) == files[fid := file]
  {
    ApplySingle(files, Put(fid, file));
    if fid in files {
      ApplySingle(files, Del(fid));
      ApplySingle(files - {fid}, Put(fid, file));
      ApplyConcat(files, [Del(fid)], [Put(fid, file)]);
      assert (files - {fid})[fid := file] == files[fid := file];
    } else {
      assert Replace(files, fid, file) == [Put(fid, file)];
    }
  }

  /** The states a replacement goes through. */
  lemma ReplaceStates<F>(s: State<F>, fid: nat, file: F, j: nat)
    requires j <= |Replace(s.vol, fid, file)|
    ensures j == 0 ==> Exec(s, Replace(s.vol, fid, file)[..j]) == s
    ensures j == 1 && fid in s.vol ==> Exec(s, Replace(s.vol, fid, file)[..j]) == Step(s, Del(fid))
    ensures j == 1 && fid !in s.vol ==> Exec(s, Replace(s.vol, fid, file)[..j]) == Step(s, Put(fid, file))
    ensures j == 2 ==> Exec(s, Replace(s.vol, fid, file)[..j]) == Step(Step(s, Del(fid)), Put(fid, file))
    ensures |Replace(s.vol, fid, file)| == if fid in s.vol then 2 else 1
  {
    var ops := Replace(s.vol, fid, file);
    var del: Log<F>, put: Log<F> := [Del(fid)], [Put(fid, file)];
    assert del[..0] == put[..0] == [];
    if fid in s.vol {
      assert ops[..1] == del;
      assert Exec(s, del) == Step(s, Del(fid));
      assert ops[..2] == del + put;
      ExecConcat(s, del, put);
    } else {
      assert ops[..1] == put;
    }
  }

  /** Deleting those of `fids` that exist, in order. */
  function Remove<F>(files: map<nat, F>, fids: seq<nat>): Log<F> {
    if fids == [] then []
    else if fids[0] in files then [Del(fids[0])] + Remove(files - {fids[0]}, fids[1..])
    else Remove(files, fids[1..])
  }

  lemma {:induction false} RemoveOps<F>(files: map<nat, F>, fids: seq<nat>)
    ensures forall i :: 0 <= i < |Remove(files, fids)| ==>
      Remove(files, fids)[i].Del? && Remove(files, fids)[i].fid in fids
    ensures Apply(files, Remove(files, fids)) == map f | f in files && f !in fids :: files[f]
    decreases |fids|
  {
    if fids != [] {
      var rest := fids[1..];
      assert fids == [fids[0]] + rest;
      if fids[0] in files {
        var one: Log<F> := [Del(fids[0])];
        RemoveOps(files - {fids[0]}, rest);
        ApplyConcat(files, one, Remove(files - {fids[0]}, rest));
        ApplySingle(files, one[0]);
      } else {
        RemoveOps(files, rest);
      }
    }
  }

  lemma {:induction false} DurPossible<F>(dur: map<nat, F>, log: Log<F>, fid: nat)
    ensures At(dur, fid) in Possible(dur, log, fid)
    decreases |log|
  {
    if log != [] {
      DurPossible(dur, log[..|log| - 1], fid);
    }
  }

  lemma {:induction false} NoSyncKeepsDur<F>(s: State<F>, ops: Log<F>)
    requires forall i :: 0 <= i < |ops| ==> !ops[i].Sync?
    ensures Exec(s, ops).dur == s.dur
    decreases |ops|
  {
    if ops != [] {
      NoSyncKeepsDur(s, ops[..|ops| - 1]);
    }
  }

  /** Of the operations since the last commit, just the write of one file may have reached flash. */
  lemma OneWriteImage<F>(s: State<F>, ops: Log<F>, fid: nat, file: F)
    requires Coherent(s)
    requires forall i :: 0 <= i < |ops| ==> !ops[i].Sync?
    requires At(Exec(s, ops).vol, fid) == Some(file)
    ensures CrashImage(Exec(s, ops), s.dur[fid := file])
  {
    var s' := Exec(s, ops);
    CoherentExec(s, ops);
    NoSyncKeepsDur(s, ops);
    assert At(s'.vol, fid) in Poss(s', fid);
    forall f: nat ensures At(s.dur[fid := file], f) in Poss(s', f) {
      DurPossible(s.dur, s'.log, f);
    }
  }

  // ---------- Writes and commits that fail ----------

  datatype Fault = WriteFault | CommitFault

  /** What is left when a sequence of operations ends, or stops at one that fails. */
  datatype Attempted<F> = Attempted(state: State<F>, good: nat, fault: Option<Fault>)

  /** The next `good` writes and commits succeed and the one after them fails; deletions do not fail. */
  function Attempt<F>(s: State<F>, ops: Log<F>, good: nat): Attempted<F>
    decreases |ops|
  {
    if ops == [] then Attempted(s, good, None)
    else if ops[0].Del? then Attempt(Step(s, ops[0]), ops[1..], good)
    else if good == 0 then Attempted(s, 0, Some(if ops[0].Sync? then CommitFault else WriteFault))
    else Attempt(Step(s, ops[0]), ops[1..], good - 1)
  }

  lemma {:induction false} AttemptConcat<F>(s: State<F>, a: Log<F>, b: Log<F>, good: nat)
    ensures var r := Attempt(s, a, good);
            Attempt(s, a + b, good) == if r.fault.Some? then r else Attempt(r.state, b, r.good)
    decreases |a|
  {
    if a == [] {
      assert a + b == b;
    } else {
      assert (a + b)[0] == a[0] && (a + b)[1..] == a[1..] + b;
      AttemptConcat(Step(s, a[0]), a[1..], b, if a[0].Del? || good == 0 then good else good - 1);
    }
  }

  lemma ExecFirst<F>(s: State<F>, ops: Log<F>, j: nat)
    requires 0 < j <= |ops|
    ensures Exec(s, ops[..j]) == Exec(Step(s, ops[0]), ops[1..][..j - 1])
  {
    assert ops[..j] == [ops[0]] + ops[1..][..j - 1];
    ExecConcat(s, [ops[0]], ops[1..][..j - 1]);
    assert [ops[0]][..0] == [];
    assert Exec(s, [ops[0]]) == Step(s, ops[0]);
  }

  /** A failed attempt stops before the operation that failed; one without a fault runs to the end. */
  lemma {:induction false} AttemptStops<F>(s: State<F>, ops: Log<F>, good: nat) returns (j: nat)
    ensures j <= |ops| && Attempt(s, ops, good).state == Exec(s, ops[..j])
    ensures Attempt(s, ops, good).fault.None? <==> j == |ops|
    ensures j < |ops| ==> Attempt(s, ops, good).fault == Some(if ops[j].Sync? then CommitFault else WriteFault)
    decreases |ops|
  {
    if ops == [] || (!ops[0].Del? && good == 0) {
      j := 0;
      assert ops[..0] == [];
    } else {
      var n := AttemptStops(Step(s, ops[0]), ops[1..], if ops[0].Del? then good else good - 1);
      j := n + 1;
      ExecFirst(s, ops, j);
    }
  }

  /** Any operation that can fail may be the one at which an attempt stops. */
  lemma {:induction false} AttemptMayStop<F>(s: State<F>, ops: Log<F>, j: nat) returns (good: nat)
    requires j < |ops| && !ops[j].Del?
    ensures Attempt(s, ops, good) ==
      Attempted(Exec(s, ops[..j]), 0, Some(if ops[j].Sync? then CommitFault else WriteFault))
    decreases j
  {
    if j == 0 {
      good := 0;
      assert ops[..0] == [];
    } else {
      good := AttemptMayStop(Step(s, ops[0]), ops[1..], j - 1);
      good := if ops[0].Del? then good else good + 1;
      ExecFirst(s, ops, j);
    }
  }
}
