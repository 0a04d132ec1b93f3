/**
 Which histories leave a container that can be created again without a risk: each completed
 update moves the manifest and the credential to the other half and leaves the rest behind,
 so the container is in one piece after an even number of them and in two after an odd one.
 */
module ContainerHistory {
  import opened Basics
  import opened Flash
  import opened ResidentContainer
  import opened ContainerSafety
  import opened ContainerCreation
  import opened ContainerRuns

  /** Completed updates of a slot since it was last created or deleted, unless a cut one makes that unclear. */
  datatype History = Since(updates: nat) | Unclear

  /** What an event does to the history of a slot; a refused call counts for nothing. */
  function Turn(s: Store, slot: nat, h: History, e: Event): History {
    if e.slot != slot || PlanOf(s.vol, slot, e.call).status != Ok then h
    else
      match e.call
      case Create(_, _, _, _) => Since(0)
      case UpdateCredential(_) => if e.Done? && h.Since? then Since(h.updates + 1) else Unclear
      case Delete => if e.Done? then Since(0) else h
  }

  function HistoryOf(events: seq<Event>, states: seq<Store>, slot: nat, i: nat): History
    requires i <= |events| < |states|
  {
    if i == 0 then Since(0) else Turn(states[i - 1], slot, HistoryOf(events, states, slot, i - 1), events[i - 1])
  }

  predicate Even(h: History)
    requires h.Since?
  {
    h.updates % 2 == 0
  }

  // ---------- The two ways a container lies in its halves ----------

  /** The credential lies in the manifest's own half; the other objects all do, or all do not. */
  ghost predicate Lies(slot: nat, m: Manifest, c: nat, whole: bool) {
    |m.objects| == 4 && Own(slot, m, c, CREDENTIAL) &&
    forall t: nat :: TypeValid(t) && t != CREDENTIAL ==> (Own(slot, m, c, t) <==> whole)
  }

  ghost predicate Filed(s: Store, slot: nat, m: Manifest, c: nat, view: seq<Bytes>, whole: bool) {
    Live(s, slot, m, c, view) && Lies(slot, m, c, whole)
  }

  ghost predicate Follows(s: Store, slot: nat, h: History) {
    Vacant(s, slot) ||
    exists m, c, view, whole :: Filed(s, slot, m, c, view, whole) && (h.Since? ==> (whole <==> Even(h)))
  }

  lemma LiesIffUnmixed(slot: nat, m: Manifest, c: nat, whole: bool)
    requires Lies(slot, m, c, whole)
    ensures Unmixed(slot, m, c) <==> whole
  {
    assert Unmixed(slot, m, c) ==> Own(slot, m, c, RP_ID_HASH);
  }

  /** An object that is not rewritten changes sides as the manifest does. */
  lemma SuccessorFlips(files: Files, slot: nat, m: Manifest, c: nat, credential: Bytes)
    requires slot < 256 && Shape(slot, m, c) && m.generation < UINT32_MAX && (exists whole :: Lies(slot, m, c, whole))
    ensures var next := Successor(files, slot, m, c, WritesOf(UpdateCredential(credential)));
            forall whole :: Lies(slot, m, c, whole) ==> Lies(slot, next, Other(c), !whole)
  {
    var writes := WritesOf(UpdateCredential(credential));
    CredentialUpdateGuarded(slot, m, c, credential);
    SuccessorObjects(files, slot, m, c, writes);
    var next := Successor(files, slot, m, c, writes);
    forall t: nat | TypeValid(t) ensures Own(slot, next, Other(c), t) <==> t == CREDENTIAL || !Own(slot, m, c, t) {
      OneFlips(files, slot, m, c, credential, t);
    }
  }

  lemma OneFlips(files: Files, slot: nat, m: Manifest, c: nat, credential: Bytes, t: nat)
    requires slot < 256 && Shape(slot, m, c) && m.generation < UINT32_MAX && TypeValid(t)
    ensures var next := Successor(files, slot, m, c, WritesOf(UpdateCredential(credential)));
            |next.objects| == 4 && (Own(slot, next, Other(c), t) <==> t == CREDENTIAL || !Own(slot, m, c, t))
  {
    hide Successor;
    var writes := WritesOf(UpdateCredential(credential));
    assert ValidWrites(writes);
    SuccessorObjects(files, slot, m, c, writes);
    assert WriteOf(writes, 0, t) == if t == CREDENTIAL then Some(writes[0]) else WriteOf(writes, 1, t);
    var next := Successor(files, slot, m, c, writes);
    assert next.objects[t - 1] == Rewritten(slot, Other(c), m.objects[t - 1], WriteOf(writes, 0, t - 1 + 1));
    FidForms(slot, 0, t);
    FidForms(slot, 1, t);
  }

  lemma CreatedWhole(files: Files, slot: nat, m: Manifest, c: nat, create: Call)
    requires slot < 256 && Shape(slot, m, c) && m.generation < UINT32_MAX && create.Create?
    ensures Lies(slot, Successor(files, slot, m, c, WritesOf(create)), Other(c), true)
  {
    hide Successor;
    var writes := WritesOf(create);
    CreateWritesFour(create);
    SuccessorObjects(files, slot, m, c, writes);
    forall t: nat | TypeValid(t) ensures Own(slot, Successor(files, slot, m, c, writes), Other(c), t) {
      WriteOfFinds(writes, 0, t);
      assert writes[t - 1].objectType == t;
      SuccessorOwns(files, slot, m, c, writes, t);
    }
  }

  // ---------- One event ----------

  lemma Filing(s: Store, slot: nat, h: History, m: Manifest, c: nat, view: seq<Bytes>, whole: bool)
    requires Filed(s, slot, m, c, view, whole) && (h.Since? ==> (whole <==> Even(h)))
    ensures Follows(s, slot, h)
  {
    hide Filed, Vacant;
  }

  /** A completed write turns the history with the halves; at the last generation it is refused and turns neither. */
  lemma WriteTurns(s: Store, slot: nat, h: History, call: Call, m: Manifest, c: nat, view: seq<Bytes>, whole: bool)
    requires slot < 256 && Coherent(s) && Filed(s, slot, m, c, view, whole) && (h.Since? ==> (whole <==> Even(h)))
    requires !call.Delete? && Enabled(s, slot, call)
    ensures Follows(Exec(s, PlanOf(s.vol, slot, call).ops), slot, Turn(s, slot, h, Done(slot, call)))
  {
    hide Live, UpdatePlan, Exec, Successor, Lies, Follows, Enabled, Coherent, Vacant;
    LiveShape(s, slot, m, c, view);
    OwnsCredential(slot, m, c, whole);
    var ops := PlanOf(s.vol, slot, call).ops;
    var turned := Turn(s, slot, h, Done(slot, call));
    if m.generation == UINT32_MAX {
      ExhaustedRefuses(s, slot, call, m, c, view);
      ExecNone(s, ops);
      Filing(s, slot, turned, m, c, view, whole);
    } else {
      var next, way := AfterWrite(s, slot, call, m, c, view, whole);
      assert ops[..|ops|] == ops;
      UpdateSound(s, slot, m, c, view, WritesOf(call), |ops|);
      Filing(Exec(s, ops), slot, turned, next, Other(c), Overwrite(view, WritesOf(call)), way);
    }
  }

  lemma OwnsCredential(slot: nat, m: Manifest, c: nat, whole: bool)
    requires Lies(slot, m, c, whole)
    ensures |m.objects| == 4 && Own(slot, m, c, CREDENTIAL)
  {
  }

  /** The manifest a write publishes, and which way its records lie. */
  lemma AfterWrite(s: Store, slot: nat, call: Call, m: Manifest, c: nat, view: seq<Bytes>, whole: bool)
    returns (next: Manifest, way: bool)
    requires slot < 256 && Coherent(s) && Filed(s, slot, m, c, view, whole) && m.generation < UINT32_MAX
    requires !call.Delete? && Enabled(s, slot, call)
    ensures |m.objects| == 4 && ValidWrites(WritesOf(call)) && Guard(slot, m, c, WritesOf(call))
    ensures next == Successor(s.vol, slot, m, c, WritesOf(call)) && Lies(slot, next, Other(c), way)
    ensures call.Create? ==> way && whole
    ensures call.UpdateCredential? ==> (way <==> !whole)
  {
    hide Live, Exec, Successor, Enabled;
    LiveShape(s, slot, m, c, view);
    CallGuarded(s, slot, call, m, c, view);
    next := Successor(s.vol, slot, m, c, WritesOf(call));
    if call.Create? {
      way := true;
      CreateWritesFour(call);
      CreateGuardIffUnmixed(slot, m, c, call);
      LiesIffUnmixed(slot, m, c, whole);
      CreatedWhole(s.vol, slot, m, c, call);
    } else {
      way := !whole;
      CredentialUpdateGuarded(slot, m, c, call.credential);
      SuccessorFlips(s.vol, slot, m, c, call.credential);
    }
  }

  lemma WriteCutTurns(s: Store, slot: nat, h: History, call: Call, steps: nat, img: Files,
                      m: Manifest, c: nat, view: seq<Bytes>, whole: bool)
    requires slot < 256 && Coherent(s) && Filed(s, slot, m, c, view, whole) && (h.Since? ==> (whole <==> Even(h)))
    requires !call.Delete? && Enabled(s, slot, call)
    requires steps <= |PlanOf(s.vol, slot, call).ops| &&
      CrashImage(Exec(s, PlanOf(s.vol, slot, call).ops[..steps]), img)
    ensures Follows(Boot(img), slot, Turn(s, slot, h, Cut(slot, call, steps, img)))
  {
    hide Live, UpdatePlan, Exec, Successor, Lies, CrashImage, Enabled;
    LiveShape(s, slot, m, c, view);
    OwnsCredential(slot, m, c, whole);
    CallOnLive(s, slot, call, m, c, view);
    if m.generation == UINT32_MAX {
      ExhaustedRefuses(s, slot, call, m, c, view);
      ExecNone(s, PlanOf(s.vol, slot, call).ops[..steps]);
      LiveAfterCut(s, img, slot, m, c, view);
      assert Filed(Boot(img), slot, m, c, view, whole);
    } else {
      var next, way := AfterWrite(s, slot, call, m, c, view, whole);
      UpdateSound(s, slot, m, c, view, WritesOf(call), steps);
      UpdateCrashAtomic(s, slot, m, c, view, WritesOf(call), steps, img);
      if Live(Boot(img), slot, m, c, view) {
        assert Filed(Boot(img), slot, m, c, view, whole);
      } else {
        assert Filed(Boot(img), slot, next, Other(c), Overwrite(view, WritesOf(call)), way);
      }
    }
  }

  lemma FirstTurns(s: Store, slot: nat, h: History, e: Event, s': Store)
    requires slot < 256 && Coherent(s) && Vacant(s, slot) && e.slot == slot && e.call.Create? && Takes(s, e, s')
    ensures Follows(s', slot, Turn(s, slot, h, e))
  {
    hide Live, UpdatePlan, Exec, Vacant, FirstPublished;
    var writes := WritesOf(e.call);
    var ops := PlanOf(s.vol, slot, e.call).ops;
    CreateWritesFour(e.call);
    FirstShape(slot, writes);
    FirstCreateSound(s, slot, writes, |ops|);
    assert ops[..|ops|] == ops;
    assert Lies(slot, FirstPublished(slot, writes), 0, true);
    if e.Done? {
      assert Filed(s', slot, FirstPublished(slot, writes), 0, Contents(writes), true);
    } else {
      FirstCreateCrashAtomic(s, slot, writes, e.steps, e.img);
      if Live(s', slot, FirstPublished(slot, writes), 0, Contents(writes)) {
        assert Filed(s', slot, FirstPublished(slot, writes), 0, Contents(writes), true);
      }
    }
  }

  lemma DeleteTurns(s: Store, slot: nat, h: History, e: Event, s': Store)
    requires slot < 256 && Coherent(s) && Follows(s, slot, h) && !Vacant(s, slot)
    requires e.slot == slot && e.call.Delete? && Enabled(s, slot, e.call) && Takes(s, e, s')
    ensures Follows(s', slot, Turn(s, slot, h, e))
  {
    hide Live, DeletePlan, Exec, Vacant, Lies;
    var m, c, view, whole :| Filed(s, slot, m, c, view, whole) && (h.Since? ==> (whole <==> Even(h)));
    DeleteEmpties(s, slot, m, c, view);
    if e.Cut? {
      var ops := DeletePlan(s.vol, slot).ops;
      if e.steps == 0 {
        assert ops[..e.steps] == [];
        ExecNone(s, ops[..e.steps]);
        LiveAfterCut(s, e.img, slot, m, c, view);
        assert Filed(s', slot, m, c, view, whole);
      } else {
        assert ops[..e.steps] == ops;
        VacantAfterCut(Exec(s, ops), e.img, slot);
      }
    }
  }

  /** Events on other slots leave a slot's container where it lies. */
  lemma ElsewhereTurns(s: Store, slot: nat, h: History, e: Event, s': Store)
    requires slot < 256 && Coherent(s) && Follows(s, slot, h) && e.slot != slot && e.slot < 256 && Takes(s, e, s')
    ensures Follows(s', slot, h)
  {
    hide Live, PlanOf, Exec, Vacant, Lies;
    var all := PlanOf(s.vol, e.slot, e.call).ops;
    CallConfined(s.vol, e.slot, e.call);
    var ops := if e.Done? then all else all[..e.steps];
    assert Confined(ops, e.slot);
    if Vacant(s, slot) {
      OtherVacant(s, ops, e.slot, slot);
      if e.Cut? {
        VacantAfterCut(Exec(s, ops), e.img, slot);
      }
    } else {
      var m, c, view, whole :| Filed(s, slot, m, c, view, whole) && (h.Since? ==> (whole <==> Even(h)));
      OtherLive(s, ops, e.slot, slot, m, c, view);
      if e.Cut? {
        LiveAfterCut(Exec(s, ops), e.img, slot, m, c, view);
      }
      assert Filed(s', slot, m, c, view, whole);
    }
  }

  lemma OtherLive(s: Store, ops: Log<File>, slot: nat, other: nat, m: Manifest, c: nat, view: seq<Bytes>)
    requires Coherent(s) && Confined(ops, slot) && slot < 256 && other < 256 && slot != other
    requires Live(s, other, m, c, view)
    ensures Live(Exec(s, ops), other, m, c, view)
  {
    LiveShape(s, other, m, c, view);
    forall i | 0 <= i < |ops| ensures Harmless(ops[i], other, m, c) {
      ForeignHarmless(ops[i], slot, other, m, c);
    }
    LiveExec(s, ops, other, m, c, view);
  }

  lemma EventTurns(s: Store, slot: nat, h: History, e: Event, s': Store)
    requires slot < 256 && Coherent(s) && Follows(s, slot, h) && Happens(s, e, s')
    ensures Follows(s', slot, Turn(s, slot, h, e))
  {
    hide Filed, PlanOf, Exec, Vacant, Turn;
    if e.slot != slot {
      ElsewhereTurns(s, slot, h, e, s');
      assert Turn(s, slot, h, e) == h by { TurnElsewhere(s, slot, h, e); }
    } else if Vacant(s, slot) {
      VacantUnmarked(s, slot);
      FirstTurns(s, slot, h, e, s');
    } else if e.call.Delete? {
      DeleteTurns(s, slot, h, e, s');
    } else {
      var m, c, view, whole :| Filed(s, slot, m, c, view, whole) && (h.Since? ==> (whole <==> Even(h)));
      match e
      case Done(_, call) => WriteTurns(s, slot, h, call, m, c, view, whole);
      case Cut(_, call, steps, img) => WriteCutTurns(s, slot, h, call, steps, img, m, c, view, whole);
    }
  }

  lemma TurnElsewhere(s: Store, slot: nat, h: History, e: Event)
    requires e.slot != slot
    ensures Turn(s, slot, h, e) == h
  {
  }

  // ---------- Whole runs ----------

  lemma {:induction false} RunFollows(events: seq<Event>, states: seq<Store>, slot: nat, i: nat)
    requires Run(events, states) && i < |states| && slot < 256
    ensures Coherent(states[i]) && Follows(states[i], slot, HistoryOf(events, states, slot, i))
    decreases i
  {
    hide Follows, Turn, Happens, Coherent;
    var table := RunRepresents(events, states, i);
    assert Coherent(states[i]) by { RepresentsCoherent(states[i], table); }
    if i == 0 {
      EmptyFollows(slot);
    } else {
      RunFollows(events, states, slot, i - 1);
      EventTurns(states[i - 1], slot, HistoryOf(events, states, slot, i - 1), events[i - 1], states[i]);
    }
  }

  lemma RepresentsCoherent(s: Store, table: Table)
    requires Represents(s, table)
    ensures Coherent(s)
  {
  }

  lemma EmptyFollows(slot: nat)
    requires slot < 256
    ensures Follows(Boot(map[]), slot, Since(0))
  {
    EmptySlotVacant(map[], slot);
  }

  /**
   The guard of a re-creation as a fact of history. In every state of every run, a slot that was
   updated n times since it was last created or deleted can be created without a risk if and only
   if it is vacant or n is even: one update puts the container in two pieces, the next one joins it.
   */
  lemma CreateEnabledIffEven(events: seq<Event>, states: seq<Store>, slot: nat, i: nat, create: Call)
    requires Run(events, states) && i < |states| && slot < 256 && create.Create?
    requires HistoryOf(events, states, slot, i).Since?
    ensures Enabled(states[i], slot, create) <==> Vacant(states[i], slot) || Even(HistoryOf(events, states, slot, i))
  {
    hide HistoryOf, Live, Vacant, Lies, Happens;
    RunFollows(events, states, slot, i);
    var s, h := states[i], HistoryOf(events, states, slot, i);
    if Vacant(s, slot) {
      VacantAfterCut(s, s.vol, slot);
      VacantLoads(s.vol, slot);
    } else {
      var m, c, view, whole :| Filed(s, slot, m, c, view, whole) && (h.Since? ==> (whole <==> Even(h)));
      LiveShape(s, slot, m, c, view);
      LiveLoads(s, s.vol, slot, m, c, view);
      LiesIffUnmixed(slot, m, c, whole);
      CreateGuardIffUnmixed(slot, m, c, create);
    }
  }

  /**
   In these runs history alone permits a creation: no update since the last creation or deletion, or
   an even number.
   */
  ghost predicate Permitted(s: Store, slot: nat, call: Call, h: History) {
    slot < 256 && (call.Create? ==> h.Since? && Even(h)) && (!call.Create? ==> IsMarker(s.vol, slot))
  }

  ghost predicate PermittedRun(events: seq<Event>, states: seq<Store>) {
    && |states| == |events| + 1
    && states[0] == Boot(map[])
    && (forall i :: 0 <= i < |events| ==>
          && Permitted(states[i], events[i].slot, events[i].call, HistoryOf(events, states, events[i].slot, i))
          && Takes(states[i], events[i], states[i + 1]))
  }

  lemma {:induction false} HistoryPrefix(events: seq<Event>, states: seq<Store>, slot: nat, i: nat, n: nat)
    requires i <= n <= |events| < |states|
    ensures HistoryOf(events[..n], states[..n + 1], slot, i) == HistoryOf(events, states, slot, i)
    decreases i
  {
    hide Turn;
    if i > 0 {
      HistoryPrefix(events, states, slot, i - 1, n);
    }
  }

  /** So all that holds of runs holds of these: every call in them is enabled. */
  lemma {:induction false} PermittedRunIsRun(events: seq<Event>, states: seq<Store>)
    requires PermittedRun(events, states)
    ensures Run(events, states)
    decreases |events|
  {
    hide HistoryOf, Takes, Permitted;
    if events != [] {
      var n := |events| - 1;
      var (events', states') := (events[..n], states[..n + 1]);
      forall i | 0 <= i < n
        ensures Permitted(states'[i], events'[i].slot, events'[i].call, HistoryOf(events', states', events'[i].slot, i))
        ensures Takes(states'[i], events'[i], states'[i + 1])
      {
        HistoryPrefix(events, states, events[i].slot, i, n);
      }
      PermittedRunIsRun(events', states');
      HistoryPrefix(events, states, events[n].slot, n, n);
      LastEnabled(events', states', events[n].slot, events[n].call);
      forall i | 0 <= i < |events| ensures Happens(states[i], events[i], states[i + 1]) {
        if i < n {
          assert Happens(states'[i], events'[i], states'[i + 1]);
        }
      }
    }
  }

  lemma LastEnabled(events: seq<Event>, states: seq<Store>, slot: nat, call: Call)
    requires Run(events, states)
    requires Permitted(states[|events|], slot, call, HistoryOf(events, states, slot, |events|))
    ensures Enabled(states[|events|], slot, call)
  {
    hide HistoryOf, Happens;
    if call.Create? {
      CreateEnabledIffEven(events, states, slot, |events|, call);
    }
  }
}
