/**
 One-time password slots: the use counter kept in flash, the session counter kept in RAM,
 and the block a button press emits.
 */
module Otp {
  import opened Basics
  import opened Crc

  const EF_OTP_SLOT1: nat := 0xBB00
  const SLOTS: nat := 4
  const SESSION_SLOTS: nat := 2
  const MAX_USE: nat := 0x7FFF
  const UINT16_SPAN: nat := 0x1_0000
  const UINT8_SPAN: nat := 0x100

  const TKT_OATH_HOTP: bv8 := 0x40
  const TKT_CHAL_RESP: bv8 := 0x40
  const CFG_SHORT_TICKET: bv8 := 0x02
  const CFG_STATIC_TICKET: bv8 := 0x20
  const CFG_CHAL_YUBICO: bv8 := 0x20

  /** A stored slot has room for a counter only once it was written with the longer format; it may fail to open. */
  datatype Slot = Slot(opens: bool, tktFlags: bv8, cfgFlags: bv8, counter: Option<nat>)

  predicate Hotp(slot: Slot) {
    slot.tktFlags & TKT_OATH_HOTP != 0
  }

  predicate Static(slot: Slot) {
    slot.cfgFlags & CFG_SHORT_TICKET != 0 || slot.cfgFlags & CFG_STATIC_TICKET != 0
  }

  /** The slot emits a counted one-time password. */
  predicate Counted(slot: Slot) {
    slot.opens && !Hotp(slot) && !Static(slot)
  }

  /** What a press on a slot that opens does, by the flags in the order it tests them. */
  datatype Kind = Responds | CountsOnItsOwn | TypesFixedText | CountsPresses

  function KindOf(tktFlags: bv8, cfgFlags: bv8): Kind {
    if cfgFlags & 0x20 != 0 && tktFlags & 0x40 != 0 then Responds
    else if tktFlags & 0x40 != 0 then CountsOnItsOwn
    else if cfgFlags & 0x22 != 0 then TypesFixedText
    else CountsPresses
  }

  /** The scan moves on exactly those counters that a press emits, although it does not test for a response. */
  lemma CountedIsPressed(slot: Slot)
    ensures Counted(slot) <==> slot.opens && KindOf(slot.tktFlags, slot.cfgFlags) == CountsPresses
  {
  }

  // ---------- One slot ----------

  /**
   The counters of one slot, 16 bits in flash and 8 bits in RAM, and whether the slots were scanned
   since power-up.
   */
  datatype Use = Use(counter: Option<nat>, session: nat, scanned: bool)

  datatype Pair = Pair(counter: nat, session: nat)

  predicate Legal(u: Use) {
    u.session < UINT8_SPAN && (u.counter.Some? ==> u.counter.value <= MAX_USE)
  }

  function StoredCount(counter: Option<nat>): nat {
    match counter
    case Some(n) => n
    case None => 0
  }

  function NextCounter(counter: Option<nat>): Option<nat> {
    if counter.Some? && (counter.value + 1) % UINT16_SPAN <= MAX_USE
    then Some((counter.value + 1) % UINT16_SPAN)
    else counter
  }

  predicate InRange(slot: Slot) {
    slot.counter.Some? ==> slot.counter.value < UINT16_SPAN
  }

  /**
   How a scan of all slots turns out for one of them: whether it is reached, and whether the scan
   comes to its end.
   */
  datatype Scan = Scan(moves: bool, completes: bool)

  /** A scan moves the use counter on; it is made once per power-up, or again after one that stopped short. */
  function Scanned(u: Use, scan: Scan): Use {
    if u.scanned then u
    else Use(if scan.moves then NextCounter(u.counter) else u.counter, u.session, scan.completes)
  }

  /** What a press emits; a slot never used before starts at 1. */
  function Emitted(u: Use): Pair {
    Pair(if StoredCount(u.counter) == 0 then 1 else StoredCount(u.counter), u.session)
  }

  /** The counters after a press: the use counter moves when the session counter wraps. */
  function Pressed(u: Use): Use {
    var shown := Emitted(u).counter;
    var session := (u.session + 1) % UINT8_SPAN;
    var next := (shown + 1) % UINT16_SPAN;
    var moves := session == 0 && next <= MAX_USE;
    Use(if moves then Some(next) else if StoredCount(u.counter) == 0 then Some(shown) else u.counter,
      session, u.scanned)
  }

  /**
   Power-up scans the slots, and so do a press and a selection of the management application
   where that scan did not come to its end. Asking for the status marks the scan as done.
   */
  datatype Event = Press(scan: Scan) | Reboot(scan: Scan) | Rescan(scan: Scan) | Status

  function After(u: Use, e: Event): Use {
    match e
    case Press(scan) => Pressed(Scanned(u, scan))
    case Reboot(scan) => Scanned(Use(u.counter, 0, false), scan)
    case Rescan(scan) => Scanned(u, scan)
    case Status => u.(scanned := true)
  }

  function Play(u: Use, events: seq<Event>): Use {
    if events == [] then u else After(Play(u, events[..|events| - 1]), events[|events| - 1])
  }

  function Emissions(u: Use, events: seq<Event>): seq<Pair> {
    if events == [] then []
    else
      var before := events[..|events| - 1];
      var e := events[|events| - 1];
      Emissions(u, before) + (if e.Press? then [Emitted(Scanned(Play(u, before), e.scan))] else [])
  }

  predicate Less(a: Pair, b: Pair) {
    a.counter < b.counter || (a.counter == b.counter && a.session < b.session)
  }

  predicate Increasing(pairs: seq<Pair>) {
    forall i, j :: 0 <= i < j < |pairs| ==> Less(pairs[i], pairs[j])
  }

  // ---------- When the emitted pair grows ----------

  /** What was emitted last, and what has happened to the slot since. */
  datatype Record = Nothing | Since(last: Pair, rebooted: bool, moved: bool)

  /** A scan in state `u` moves the counter. */
  predicate Moving(u: Use, scan: Scan) {
    !u.scanned && scan.moves
  }

  function Recorded(r: Record, u: Use, e: Event): Record {
    match e
    case Press(scan) => Since(Emitted(Scanned(u, scan)), false, false)
    case Reboot(scan) => if r.Nothing? then r else Since(r.last, true, r.moved || scan.moves)
    case Rescan(scan) => if r.Nothing? then r else Since(r.last, r.rebooted, r.moved || Moving(u, scan))
    case Status => r
  }

  function RecordOf(u: Use, events: seq<Event>): Record {
    if events == [] then Nothing
    else
      var before := events[..|events| - 1];
      Recorded(RecordOf(u, before), Play(u, before), events[|events| - 1])
  }

  /**
   A press emits more than the last one did: within one power-up unless both counters are at
   their ends, and across a reboot if the use counter was below its end and has moved on,
   by a wrap of the session counter or by a scan.
   */
  predicate Grows(r: Record, moving: bool)
    requires r.Since?
  {
    var (counter, session) := (r.last.counter, r.last.session);
    if r.rebooted then counter < MAX_USE && (session == UINT8_SPAN - 1 || r.moved || moving)
    else counter < MAX_USE || session < UINT8_SPAN - 1
  }

  /** How far the use counter must be, or just is, given the record. */
  predicate Tracks(r: Record, u: Use) {
    Legal(u) &&
    (r.Since? ==>
       0 < r.last.counter <= MAX_USE && r.last.session < UINT8_SPAN && u.counter.Some? &&
       u.session == (if r.rebooted then 0 else (r.last.session + 1) % UINT8_SPAN) &&
       (if r.moved || r.last.session == UINT8_SPAN - 1
        then u.counter.value >= (if r.last.counter < MAX_USE then r.last.counter + 1 else MAX_USE)
        else u.counter.value == r.last.counter))
  }

  lemma StepTracks(r: Record, u: Use, e: Event)
    requires Tracks(r, u)
    ensures Tracks(Recorded(r, u, e), After(u, e))
  {
  }

  lemma {:induction false} RunTracks(u: Use, events: seq<Event>)
    requires Legal(u)
    ensures Tracks(RecordOf(u, events), Play(u, events))
    ensures RecordOf(u, events).Nothing? <==> Emissions(u, events) == []
    ensures RecordOf(u, events).Since? ==> Emissions(u, events)[|Emissions(u, events)| - 1] == RecordOf(u, events).last
    decreases |events|
  {
    hide Tracks, Emitted, Scanned, After;
    if events == [] {
      NothingTracks(u);
    } else {
      RunTracks(u, events[..|events| - 1]);
      StepTracks(RecordOf(u, events[..|events| - 1]), Play(u, events[..|events| - 1]), events[|events| - 1]);
    }
  }

  lemma NothingTracks(u: Use)
    requires Legal(u)
    ensures Tracks(Nothing, u)
  {
  }

  /**
   The exact condition: after any events, a press emits a greater pair than the last one
   if and only if what has happened since lets it.
   */
  lemma NextPressGrowsIff(u: Use, events: seq<Event>, scan: Scan)
    requires Legal(u) && RecordOf(u, events).Since?
    ensures var v := Play(u, events);
            Less(RecordOf(u, events).last, Emitted(Scanned(v, scan))) <==> Grows(RecordOf(u, events), Moving(v, scan))
  {
    hide Play, RecordOf, Emissions;
    RunTracks(u, events);
  }

  /** Every press but the first comes when the pair can grow. */
  predicate NeverStalls(u: Use, events: seq<Event>) {
    events == [] ||
    (var before := events[..|events| - 1];
     var e := events[|events| - 1];
     NeverStalls(u, before) &&
     (e.Press? && RecordOf(u, before).Since? ==> Grows(RecordOf(u, before), Moving(Play(u, before), e.scan))))
  }

  /** Over any run the emitted pairs increase strictly if and only if no press stalls. */
  lemma {:induction false} EmissionsIncreaseIff(u: Use, events: seq<Event>)
    requires Legal(u)
    ensures Increasing(Emissions(u, events)) <==> NeverStalls(u, events)
    decreases |events|
  {
    hide Grows, Moving, Less, Increasing, Scanned, Emitted, Recorded, Tracks;
    if events == [] {
      NothingIncreases();
    } else {
      var before := events[..|events| - 1];
      var e := events[|events| - 1];
      EmissionsIncreaseIff(u, before);
      RunTracks(u, before);
      if e.Press? {
        AppendIncreasingIff(Emissions(u, before), Emitted(Scanned(Play(u, before), e.scan)));
        if RecordOf(u, before).Since? {
          NextPressGrowsIff(u, before, e.scan);
        }
      } else {
        assert Emissions(u, before) + [] == Emissions(u, before);
      }
    }
  }

  lemma NothingIncreases()
    ensures Increasing([])
  {
  }

  lemma AppendIncreasingIff(pairs: seq<Pair>, p: Pair)
    ensures Increasing(pairs + [p]) <==> Increasing(pairs) && (|pairs| > 0 ==> Less(pairs[|pairs| - 1], p))
  {
    var longer := pairs + [p];
    if Increasing(longer) {
      forall i, j | 0 <= i < j < |pairs| ensures Less(pairs[i], pairs[j]) {
        assert Less(longer[i], longer[j]);
      }
      assert |pairs| > 0 ==> Less(longer[|pairs| - 1], longer[|pairs|]);
    }
    if Increasing(pairs) && (|pairs| > 0 ==> Less(pairs[|pairs| - 1], p)) {
      forall i | 0 <= i < |pairs| ensures Less(pairs[i], p) {
        assert i < |pairs| - 1 ==> Less(pairs[i], pairs[|pairs| - 1]);
      }
    }
  }

  /** Asking for the status before a scan has come to its end makes the first two presses of two power-ups the same. */
  lemma StatusRepeatsPair(u: Use)
    requires Legal(u) && u.session == 0
    ensures var failed := Scan(false, false);
            Emissions(u, [Press(failed), Reboot(failed), Status, Press(Scan(true, true))]) ==
              [Emitted(u), Emitted(u)]
  {
    var failed := Scan(false, false);
    var first, second, third :=
      [Press(failed)], [Press(failed), Reboot(failed)], [Press(failed), Reboot(failed), Status];
    var all := third + [Press(Scan(true, true))];
    assert first[..0] == [] && second[..1] == first && third[..2] == second && all[..3] == third;
    assert Play(u, first) == Pressed(Scanned(u, failed)) && Emissions(u, first) == [Emitted(u)];
    assert Emissions(u, second) == [Emitted(u)] && Emissions(u, third) == [Emitted(u)];
    assert Play(u, second) == After(Play(u, first), Reboot(failed)) && Play(u, third) == After(Play(u, second), Status);
    assert Emitted(Play(u, third)) == Emitted(u);
    assert all[3] == Press(Scan(true, true));
    assert all == [Press(failed), Reboot(failed), Status, Press(Scan(true, true))];
  }

  // ---------- The emitted block ----------

  /** Identity, use counter, time, session counter and noise. */
  function Body(uid: Bytes, counter: bv16, time: Bytes, session: bv8, noise: Bytes): Bytes {
    uid + [Low(counter), High(counter)] + time + [session] + noise
  }

  /** The block that is encrypted: the body closed by its check sequence. */
  function Block(uid: Bytes, counter: bv16, time: Bytes, session: bv8, noise: Bytes): Bytes {
    Body(uid, counter, time, session, noise) + Trailer(Body(uid, counter, time, session, noise))
  }

  function FromBytes(low: bv8, high: bv8): bv16 {
    (low as bv16) | ((high as bv16) << 8)
  }

  lemma FromBytesInverts(n: bv16)
    ensures FromBytes(Low(n), High(n)) == n
  {
  }

  /** Every emitted block passes the residue check, and says which counters it was made for. */
  lemma BlockIsGood(uid: Bytes, counter: bv16, time: Bytes, session: bv8, noise: Bytes)
    requires |uid| == 6 && |time| == 3 && |noise| == 2
    ensures var block := Block(uid, counter, time, session, noise);
            |block| == 16 && Fcs(block) == GOOD_RESIDUE && block[..6] == uid &&
            FromBytes(block[6], block[7]) == counter && block[11] == session
  {
    hide Fcs, Trailer, Low, High, FromBytes;
    var body := Body(uid, counter, time, session, noise);
    ClosedFrameIsGood(body);
    FromBytesInverts(counter);
    var block := body + Trailer(body);
    assert block[..6] == uid;
  }

  // ---------- The procedures ----------

  /** The scan stores a new counter for this slot. */
  predicate Advances(slot: Slot) {
    Counted(slot) && slot.counter.Some? && (slot.counter.value + 1) % UINT16_SPAN <= MAX_USE
  }

  /** What a scan makes of a stored slot. */
  function ScanSlot(slot: Slot): Slot {
    if Counted(slot) then slot.(counter := NextCounter(slot.counter)) else slot
  }

  /** The slots a scan gets through, when storing slot `fails` would fail. */
  function Reach(slots: map<nat, Slot>, fails: nat): nat {
    if fails < SLOTS && EF_OTP_SLOT1 + fails in slots && Advances(slots[EF_OTP_SLOT1 + fails]) then fails else SLOTS
  }

  /** How the scan turns out for slot `n`; without the migration of older slots it does not start. */
  function ScanOf(slots: map<nat, Slot>, n: nat, migrates: bool, fails: nat): Scan
    requires 1 <= n
  {
    Scan(migrates && n - 1 < Reach(slots, fails), migrates && Reach(slots, fails) == SLOTS)
  }

  /** The scan stores a slot exactly when it changes it, and it changes a counter by one, below its end. */
  lemma AdvancesIff(slot: Slot)
    requires InRange(slot)
    ensures Advances(slot) <==> ScanSlot(slot) != slot
    ensures Advances(slot) <==>
      Counted(slot) && slot.counter.Some? && (slot.counter.value < MAX_USE || slot.counter.value == UINT16_SPAN - 1)
    ensures ScanSlot(slot) == slot.(counter := ScanSlot(slot).counter)
    ensures Advances(slot) && slot.counter.value < MAX_USE ==> ScanSlot(slot).counter.value == slot.counter.value + 1
  {
  }

  /** The scan ends at the slot whose new counter cannot be stored, if there is one that has to be. */
  lemma ScanStops(slots: map<nat, Slot>, n: nat, migrates: bool, fails: nat)
    requires 1 <= n <= SLOTS && forall f :: f in slots ==> InRange(slots[f])
    ensures var f := EF_OTP_SLOT1 + fails;
            var stops := fails < SLOTS && f in slots && ScanSlot(slots[f]) != slots[f];
            ScanOf(slots, n, migrates, fails) == Scan(migrates && (stops ==> n <= fails), migrates && !stops)
  {
    if EF_OTP_SLOT1 + fails in slots {
      AdvancesIff(slots[EF_OTP_SLOT1 + fails]);
    }
  }

  class Application {
    var slots: map<nat, Slot>
    var sessions: array<nat>
    var scanned: bool

    ghost predicate Valid()
      reads this, sessions
    {
      sessions.Length == SESSION_SLOTS &&
      (forall i :: 0 <= i < SESSION_SLOTS ==> sessions[i] < UINT8_SPAN) &&
      (forall f :: f in slots ==> InRange(slots[f]))
    }

    /** The counters of slot `n`, which are those of its file and of the RAM entry with its number. */
    ghost function UseOf(n: nat): Use
      requires 1 <= n <= SESSION_SLOTS && EF_OTP_SLOT1 + n - 1 in slots && sessions.Length == SESSION_SLOTS
      reads this, sessions
    {
      Use(slots[EF_OTP_SLOT1 + n - 1].counter, sessions[n - 1], scanned)
    }

    /** Power-up: RAM is cleared, and the slots are scanned. */
    constructor (stored: map<nat, Slot>, migrates: bool, fails: nat)
      requires forall f :: f in stored ==> InRange(stored[f])
      ensures Valid() && fresh(sessions) && slots.Keys == stored.Keys
      ensures forall n ::
        1 <= n <= SESSION_SLOTS && EF_OTP_SLOT1 + n - 1 in stored && Counted(stored[EF_OTP_SLOT1 + n - 1]) ==>
        UseOf(n) == Scanned(Use(stored[EF_OTP_SLOT1 + n - 1].counter, 0, false), ScanOf(stored, n, migrates, fails))
      ensures forall f :: f in stored && !Counted(stored[f]) ==> slots[f] == stored[f]
    {
      hide InRange, Counted;
      sessions := new nat[SESSION_SLOTS](_ => 0);
      slots, scanned := stored, false;
      new;
      InitOtp(migrates, fails);
    }

    /** The scan, unless one has come to its end since power-up. */
    method InitOtp(migrates: bool, fails: nat)
      requires Valid()
      modifies this`slots, this`scanned
      ensures Valid() && slots.Keys == old(slots.Keys)
      ensures forall f :: f in slots ==>
        slots[f] == if !old(scanned) && migrates && EF_OTP_SLOT1 <= f < EF_OTP_SLOT1 + Reach(old(slots), fails)
                    then ScanSlot(old(slots)[f]) else old(slots)[f]
      ensures scanned == (old(scanned) || (migrates && Reach(old(slots), fails) == SLOTS))
    {
      hide Advances, InRange, Counted;
      if scanned {
        return;
      }
      if !migrates {
        return;
      }
      for i := 0 to SLOTS
        invariant Valid() && slots.Keys == old(slots.Keys) && !scanned && i <= Reach(old(slots), fails)
        invariant forall f :: f in slots ==>
          slots[f] == if EF_OTP_SLOT1 <= f < EF_OTP_SLOT1 + i then ScanSlot(old(slots)[f]) else old(slots)[f]
      {
        var stored := ScanFile(EF_OTP_SLOT1 + i, i != fails);
        if !stored {
          return;
        }
      }
      scanned := true;
    }

    /** One slot of the scan; false only when its new counter should be stored and cannot be. */
    method ScanFile(f: nat, stores: bool) returns (ok: bool)
      requires Valid()
      modifies this`slots
      ensures Valid()
      ensures ok == (f in old(slots) && Advances(old(slots)[f]) ==> stores)
      ensures slots == if f in old(slots) && ok then old(slots)[f := ScanSlot(old(slots)[f])] else old(slots)
    {
      ok := true;
      if f !in slots || !slots[f].opens {
        return;
      }
      if slots[f].counter.Some? && !Hotp(slots[f]) && !Static(slots[f]) {
        var counter := (slots[f].counter.value + 1) % UINT16_SPAN;
        if counter <= 0x7FFF {
          if !stores {
            return false;
          }
          slots := slots[f := slots[f].(counter := Some(counter))];
        }
      }
    }

    /** Asking for the status takes the scan as done. */
    method GetStatus()
      modifies this`scanned
      ensures scanned
    {
      scanned := true;
    }

    /**
     A press on a counted slot emits its pair and advances its counters, and those alone. The
     session counters cover two slots only, so a counted slot beyond those is not pressed here.
     */
    method ButtonPressed(n: nat, migrates: bool, fails: nat) returns (emitted: Option<Pair>)
      requires Valid() && 1 <= n <= SLOTS
      requires n <= SESSION_SLOTS || EF_OTP_SLOT1 + n - 1 !in slots || !Counted(slots[EF_OTP_SLOT1 + n - 1])
      modifies this`slots, this`scanned, sessions
      ensures Valid() && slots.Keys == old(slots.Keys)
      ensures emitted.Some? <==> EF_OTP_SLOT1 + n - 1 in old(slots) && Counted(old(slots)[EF_OTP_SLOT1 + n - 1])
      ensures emitted.Some? ==>
        var u := Scanned(old(UseOf(n)), ScanOf(old(slots), n, migrates, fails));
        emitted.value == Emitted(u) && UseOf(n) == Pressed(u)
      ensures emitted.None? ==> sessions[..] == old(sessions[..])
      ensures forall f :: f in slots && (emitted.None? || f != EF_OTP_SLOT1 + n - 1) ==>
        slots[f] == if !old(scanned) && migrates && EF_OTP_SLOT1 <= f < EF_OTP_SLOT1 + Reach(old(slots), fails)
                    then ScanSlot(old(slots)[f]) else old(slots)[f]
      ensures forall i :: 0 <= i < SESSION_SLOTS && i != n - 1 ==> sessions[i] == old(sessions[i])
    {
      hide Counted, Emitted, Pressed, NextCounter, Reach;
      InitOtp(migrates, fails);
      if EF_OTP_SLOT1 + n - 1 in old(slots) {
        ScanKeepsKind(old(slots)[EF_OTP_SLOT1 + n - 1]);
      }
      emitted := PressSlot(n);
    }

    /** What a press does once the slots are scanned. */
    method PressSlot(n: nat) returns (emitted: Option<Pair>)
      requires Valid() && 1 <= n <= SLOTS
      requires n <= SESSION_SLOTS || EF_OTP_SLOT1 + n - 1 !in slots || !Counted(slots[EF_OTP_SLOT1 + n - 1])
      modifies this`slots, sessions
      ensures Valid() && slots.Keys == old(slots.Keys)
      ensures emitted.Some? <==> EF_OTP_SLOT1 + n - 1 in old(slots) && Counted(old(slots)[EF_OTP_SLOT1 + n - 1])
      ensures emitted.Some? ==> emitted.value == Emitted(old(UseOf(n))) && UseOf(n) == Pressed(old(UseOf(n)))
      ensures emitted.None? ==> slots == old(slots) && sessions[..] == old(sessions[..])
      ensures forall f :: f in slots && f != EF_OTP_SLOT1 + n - 1 ==> slots[f] == old(slots)[f]
      ensures forall i :: 0 <= i < SESSION_SLOTS && i != n - 1 ==> sessions[i] == old(sessions[i])
    {
      var f := EF_OTP_SLOT1 + n - 1;
      if f !in slots || !slots[f].opens {
        return None;
      }
      var slot := slots[f];
      if slot.cfgFlags & CFG_CHAL_YUBICO != 0 && slot.tktFlags & TKT_CHAL_RESP != 0 {
        return None;
      }
      if slot.tktFlags & TKT_OATH_HOTP != 0 {
        return None;
      }
      if slot.cfgFlags & CFG_SHORT_TICKET != 0 || slot.cfgFlags & CFG_STATIC_TICKET != 0 {
        return None;
      }
      var updateCounter := false;
      var counter := if slot.counter.Some? then slot.counter.value else 0;
      if counter == 0 {
        updateCounter := true;
        counter := 1;
      }
      emitted := Some(Pair(counter, sessions[n - 1]));
      sessions[n - 1] := (sessions[n - 1] + 1) % UINT8_SPAN;
      if sessions[n - 1] == 0 {
        counter := (counter + 1) % UINT16_SPAN;
        if counter <= 0x7FFF {
          updateCounter := true;
        }
      }
      if updateCounter {
        slots := slots[f := slot.(counter := Some(counter))];
      }
    }
  }

  lemma ScanKeepsKind(slot: Slot)
    ensures Counted(ScanSlot(slot)) <==> Counted(slot)
    ensures ScanSlot(slot).counter == if Counted(slot) then NextCounter(slot.counter) else slot.counter
  {
  }
}
