/**
 Who may use the OATH application: its PIN, with three tries and a counter made durable before
 each comparison; its access code, proved by answering a challenge; selection and reset.
 */
module OathPin {
  import opened Basics
  import opened Flash
  import Oath

  const EF_OTP_PIN: nat := 0x10A0
  const EF_OATH_CODE: nat := 0xBAFF
  const MAX_OTP_COUNTER: nat := 3
  const ACCESS_CODE_MAX: nat := 65

  type Value = Oath.Value

  /**
   `legacy` marks the shorter PIN record of the earlier format; `Raw` is an access code, or a PIN
   record of neither format.
   */
  datatype File = PinRecord(retries: nat, legacy: bool, pin: Bytes) | Raw(data: Value)

  /** How keys are sealed, and the keyed hash; the first byte of a key selects the hash function. */
  datatype Crypto = Crypto(box: Oath.Box, mac: (Value, Value) -> Value)

  /** `tries` counts, for the record, the comparisons since a PIN was last accepted or set. */
  datatype Device = Device(flash: State<File>, selected: bool, validated: bool, challenge: Value, tries: nat)

  datatype Status =
    | Ok
    | NotSelected
    | NotSatisfied
    | ConditionsNotSatisfied
    | MemoryFailure
    | IncorrectParams
    | IncorrectP1P2
    | WrongData
    | DataInvalid
    | ExecError

  /** `proof` is the authenticator's own answer to a challenge. */
  datatype Outcome = Outcome(device: Device, status: Status, proof: Option<Value>)

  datatype Checked = Matched | Mismatched | Blocked | StorageError

  function Refuse(s: Device, status: Status): Outcome {
    Outcome(s, status, None)
  }

  predicate Admits(s: Device) {
    s.selected && s.validated
  }

  predicate HasPin(s: Device) {
    EF_OTP_PIN in s.flash.vol
  }

  predicate HasCode(s: Device) {
    EF_OATH_CODE in s.flash.vol
  }

  /** The PIN record, if it is of a known format. */
  function Stored(s: Device): Option<File> {
    if HasPin(s) && s.flash.vol[EF_OTP_PIN].PinRecord? then Some(s.flash.vol[EF_OTP_PIN]) else None
  }

  function Write(s: Device, fid: nat, file: File): Device {
    s.(flash := Step(s.flash, Put(fid, file)))
  }

  function Erase(s: Device, fid: nat): Device {
    if fid in s.flash.vol then s.(flash := Step(s.flash, Del(fid))) else s
  }

  // ---------- The PIN ----------

  predicate Matches(stored: File, pin: Bytes)
    requires stored.PinRecord?
  {
    stored.pin == pin && (stored.legacy ==> pin != [])
  }

  function CheckPin(s: Device, stored: File, pin: Bytes, persisted: Persisted): (Device, Checked)
    requires stored.PinRecord?
  {
    if stored.retries == 0 then (s, Blocked)
    else if persisted.WriteFails? then (s, StorageError)
    else
      var lowered := stored.(retries := stored.retries - 1);
      var written := Write(s, EF_OTP_PIN, lowered);
      if persisted.CommitTimesOut? then (written, StorageError)
      else
        var compared := written.(flash := Step(written.flash, Sync), tries := s.tries + 1);
        (compared, if Matches(lowered, pin) then Matched else Mismatched)
  }

  function Fresh(pin: Bytes): File {
    PinRecord(MAX_OTP_COUNTER, false, pin)
  }

  /** `writes` says whether the last write of the command succeeds; a missing field is `None`. */
  datatype Command =
    | SetPin(pin: Option<Bytes>, writes: bool)
    | ChangePin(pin: Option<Bytes>, newPin: Option<Bytes>, persisted: Persisted, writes: bool)
    | VerifyPin(pin: Option<Bytes>, persisted: Persisted, writes: bool)
    | SetCode(empty: bool, key: Option<Value>, question: Option<Value>, answer: Option<Value>, renewed: Value,
      writes: bool)
    | Validate(question: Option<Value>, answer: Option<Value>)
    | Reset(confirmed: bool)

  function PerformSetPin(s: Device, c: Command): Outcome
    requires c.SetPin?
  {
    if !s.validated then Refuse(s, NotSatisfied)
    else if HasPin(s) then Refuse(s, ConditionsNotSatisfied)
    else if c.pin.None? then Refuse(s, IncorrectParams)
    else if !c.writes then Refuse(s, MemoryFailure)
    else Outcome(Write(s, EF_OTP_PIN, Fresh(c.pin.value)).(tries := 0), Ok, None)
  }

  /** A PIN that matches is followed by the PIN to store: the same one, or its successor. */
  function PerformWithPin(s: Device, c: Command): Outcome
    requires c.ChangePin? || c.VerifyPin?
  {
    if Stored(s).None? then Refuse(s, ConditionsNotSatisfied)
    else if c.pin.None? || (c.ChangePin? && c.newPin.None?) then Refuse(s, IncorrectParams)
    else
      var (t, checked) := CheckPin(s, Stored(s).value, c.pin.value, c.persisted);
      if checked.StorageError? then Refuse(t, MemoryFailure)
      else if !checked.Matched? then Refuse(if c.VerifyPin? then t.(validated := false) else t, NotSatisfied)
      else if !c.writes then Refuse(t, MemoryFailure)
      else
        var accepted := Write(t, EF_OTP_PIN, Fresh(if c.ChangePin? then c.newPin.value else c.pin.value)).(tries := 0);
        Outcome(if c.VerifyPin? then accepted.(validated := true) else accepted, Ok, None)
  }

  // ---------- The access code ----------

  predicate WellSized(key: Value) {
    2 <= |key| <= ACCESS_CODE_MAX
  }

  /** A key is stored sealed unless it looks as if it already were. */
  function Protected(crypto: Crypto, key: Value): Value {
    if Oath.LooksSealed(key) then key else crypto.box.seal(key)
  }

  /** A code is accepted with proof that its sender knows it; the next command then has to answer for it. */
  function PerformSetCode(crypto: Crypto, s: Device, c: Command): Outcome
    requires c.SetCode?
  {
    if !s.validated then Refuse(s, NotSatisfied)
    else if c.empty then Outcome(Erase(s, EF_OATH_CODE), Ok, None)
    else if c.key.None? then Refuse(s, IncorrectParams)
    else if |c.key.value| == 1 || |c.key.value| > ACCESS_CODE_MAX then Refuse(s, WrongData)
    else if c.key.value == [] then Outcome(Erase(s, EF_OATH_CODE), Ok, None)
    else if c.question.None? || c.answer.None? || !Oath.KnownHash(c.key.value) then Refuse(s, IncorrectParams)
    else if c.answer.value != crypto.mac(c.key.value, c.question.value) then Refuse(s, DataInvalid)
    else
      var asked := s.(challenge := c.renewed);
      if !c.writes then Refuse(asked, ExecError)
      else Outcome(Write(asked, EF_OATH_CODE, Raw(Protected(crypto, c.key.value))).(validated := false), Ok, None)
  }

  /** What the stored code opens to; a record of the wrong kind counts as one that is too short. */
  function OpenCode(crypto: Crypto, s: Device): Option<Value>
    requires HasCode(s)
  {
    var file := s.flash.vol[EF_OATH_CODE];
    if file.Raw? then Oath.OpenKey(crypto.box, file.data) else Some([])
  }

  function PerformValidate(crypto: Crypto, s: Device, c: Command): Outcome
    requires c.Validate?
  {
    if c.question.None? || c.answer.None? then Refuse(s, IncorrectParams)
    else if !HasCode(s) then Refuse(s.(validated := true), DataInvalid)
    else
      var key := OpenCode(crypto, s);
      if key.None? then Refuse(s, ExecError)
      else if !WellSized(key.value) then Refuse(s, WrongData)
      else if !Oath.KnownHash(key.value) then Refuse(s, IncorrectParams)
      else if c.answer.value != crypto.mac(key.value, s.challenge) then Refuse(s, DataInvalid)
      else Outcome(s.(validated := true), Ok, Some(crypto.mac(key.value, c.question.value)))
  }

  /** Anyone may reset the application, which erases both. */
  function PerformReset(s: Device, c: Command): Outcome
    requires c.Reset?
  {
    if !c.confirmed then Refuse(s, IncorrectP1P2)
    else Outcome(Erase(Erase(s, EF_OATH_CODE), EF_OTP_PIN).(validated := true), Ok, None)
  }

  function Perform(crypto: Crypto, s: Device, c: Command): Outcome {
    if !s.selected then Refuse(s, NotSelected)
    else
      match c
      case SetPin(_, _) => PerformSetPin(s, c)
      case ChangePin(_, _, _, _) => PerformWithPin(s, c)
      case VerifyPin(_, _, _) => PerformWithPin(s, c)
      case SetCode(_, _, _, _, _, _) => PerformSetCode(crypto, s, c)
      case Validate(_, _) => PerformValidate(crypto, s, c)
      case Reset(_) => PerformReset(s, c)
  }

  /**
   Selecting the application decides anew whether a check is needed, seals a code stored by
   earlier firmware, and draws a challenge if there is a code. `migrates` says whether the sealing works.
   */
  function Selected(crypto: Crypto, s: Device, challenge: Value, migrates: bool): Device {
    var decided := s.(validated := !HasCode(s) && !HasPin(s));
    if !migrates then decided
    else if !HasCode(s) then decided.(selected := true)
    else
      var file := s.flash.vol[EF_OATH_CODE];
      var sealed :=
        if file.Raw? && !Oath.LooksSealed(file.data) then Write(decided, EF_OATH_CODE, Raw(crypto.box.seal(file.data)))
        else decided;
      sealed.(selected := true, challenge := challenge)
  }

  // ---------- Runs ----------

  datatype Event =
    | Request(command: Command)
    | Select(challenge: Value, migrates: bool)
    | PowerCut(image: map<nat, File>)

  /** After power-up the flag is set, but no command gets through before a selection. */
  function PowerUp(image: map<nat, File>, tries: nat): Device {
    Device(Boot(image), false, true, [], tries)
  }

  function After(crypto: Crypto, s: Device, e: Event): Device {
    match e
    case Request(c) => Perform(crypto, s, c).device
    case Select(challenge, migrates) => Selected(crypto, s, challenge, migrates)
    case PowerCut(image) => PowerUp(image, s.tries)
  }

  ghost predicate Enabled(s: Device, e: Event) {
    e.PowerCut? ==> CrashImage(s.flash, e.image)
  }

  function Play(crypto: Crypto, s: Device, events: seq<Event>): Device {
    if events == [] then s else After(crypto, Play(crypto, s, events[..|events| - 1]), events[|events| - 1])
  }

  ghost predicate Run(crypto: Crypto, s: Device, events: seq<Event>) {
    events == [] ||
    (Run(crypto, s, events[..|events| - 1]) && Enabled(Play(crypto, s, events[..|events| - 1]), events[|events| - 1]))
  }

  // ---------- The bound on attempts ----------

  predicate Affordable(file: Option<File>, tries: nat) {
    file.Some? && file.value.PinRecord? ==> tries + file.value.retries <= MAX_OTP_COUNTER
  }

  ghost predicate Bounded(flash: State<File>, tries: nat) {
    Coherent(flash) && forall file :: file in Poss(flash, EF_OTP_PIN) ==> Affordable(file, tries)
  }

  lemma StoredAffordable(flash: State<File>, tries: nat)
    requires Bounded(flash, tries)
    ensures Affordable(At(flash.vol, EF_OTP_PIN), tries)
  {
    assert At(flash.vol, EF_OTP_PIN) in Poss(flash, EF_OTP_PIN);
  }

  lemma WriteBounded(flash: State<File>, tries: nat, op: Op<File>)
    requires Bounded(flash, tries) && (op.Put? && op.fid == EF_OTP_PIN ==> Affordable(Some(op.file), tries))
    requires !op.Sync?
    ensures Bounded(Step(flash, op), tries)
  {
    CoherentStep(flash, op);
    PossStep(flash, op, EF_OTP_PIN);
  }

  lemma CommitBounded(flash: State<File>, before: nat, tries: nat)
    requires Bounded(flash, before) && Affordable(At(flash.vol, EF_OTP_PIN), tries)
    ensures Bounded(Step(flash, Sync), tries)
  {
    CoherentStep(flash, Sync);
    PossStep(flash, Sync, EF_OTP_PIN);
  }

  lemma SuccessBounded(flash: State<File>, tries: nat)
    requires Bounded(flash, tries)
    ensures Bounded(flash, 0)
  {
    forall file | file in Poss(flash, EF_OTP_PIN) ensures Affordable(file, 0) {
      assert Affordable(file, tries);
    }
  }

  lemma CutBounded(flash: State<File>, tries: nat, image: map<nat, File>)
    requires Bounded(flash, tries) && CrashImage(flash, image)
    ensures Bounded(Boot(image), tries)
  {
    BootCoherent(image);
    assert At(image, EF_OTP_PIN) in Poss(flash, EF_OTP_PIN);
  }

  lemma CheckBounded(s: Device, stored: File, pin: Bytes, persisted: Persisted)
    requires Bounded(s.flash, s.tries) && Stored(s) == Some(stored)
    ensures var r := CheckPin(s, stored, pin, persisted).0; Bounded(r.flash, r.tries)
  {
    hide Bounded;
    if stored.retries > 0 {
      var lowered := stored.(retries := stored.retries - 1);
      StoredAffordable(s.flash, s.tries);
      WriteBounded(s.flash, s.tries, Put(EF_OTP_PIN, lowered));
      CommitBounded(Step(s.flash, Put(EF_OTP_PIN, lowered)), s.tries, s.tries + 1);
    }
  }

  lemma WithPinBounded(s: Device, c: Command)
    requires c.ChangePin? || c.VerifyPin?
    requires Bounded(s.flash, s.tries)
    ensures var r := PerformWithPin(s, c).device; Bounded(r.flash, r.tries)
  {
    hide Bounded, CheckPin;
    if Stored(s).Some? && c.pin.Some? {
      CheckBounded(s, Stored(s).value, c.pin.value, c.persisted);
      var t := CheckPin(s, Stored(s).value, c.pin.value, c.persisted).0;
      SuccessBounded(t.flash, t.tries);
      WriteBounded(t.flash, 0, Put(EF_OTP_PIN,
        Fresh(if c.ChangePin? && c.newPin.Some? then c.newPin.value else c.pin.value)));
    }
  }

  lemma EraseBounded(s: Device, fid: nat)
    requires Bounded(s.flash, s.tries)
    ensures Bounded(Erase(s, fid).flash, s.tries) && Erase(s, fid).tries == s.tries
  {
    hide Bounded;
    WriteBounded(s.flash, s.tries, Del(fid));
  }

  lemma AfterBounded(crypto: Crypto, s: Device, e: Event)
    requires Bounded(s.flash, s.tries) && Enabled(s, e)
    ensures var r := After(crypto, s, e); Bounded(r.flash, r.tries)
  {
    hide Bounded, PerformWithPin, Oath.LooksSealed, Protected, Erase;
    match e
    case Request(c) =>
      EraseBounded(s, EF_OATH_CODE);
      EraseBounded(Erase(s, EF_OATH_CODE), EF_OTP_PIN);
      if c.SetPin? && c.pin.Some? {
        SuccessBounded(s.flash, s.tries);
        WriteBounded(s.flash, 0, Put(EF_OTP_PIN, Fresh(c.pin.value)));
      } else if c.ChangePin? || c.VerifyPin? {
        WithPinBounded(s, c);
      } else if c.SetCode? && c.key.Some? {
        WriteBounded(s.flash, s.tries, Put(EF_OATH_CODE, Raw(Protected(crypto, c.key.value))));
      }
    case Select(_, _) =>
      if HasCode(s) && s.flash.vol[EF_OATH_CODE].Raw? {
        WriteBounded(s.flash, s.tries, Put(EF_OATH_CODE, Raw(crypto.box.seal(s.flash.vol[EF_OATH_CODE].data))));
      }
    case PowerCut(image) => CutBounded(s.flash, s.tries, image);
  }

  lemma {:induction false} RunBounded(crypto: Crypto, s: Device, events: seq<Event>)
    requires Run(crypto, s, events) && Bounded(s.flash, s.tries)
    ensures Bounded(Play(crypto, s, events).flash, Play(crypto, s, events).tries)
    decreases |events|
  {
    hide Bounded, After, Enabled;
    if events != [] {
      RunBounded(crypto, s, events[..|events| - 1]);
      AfterBounded(crypto, Play(crypto, s, events[..|events| - 1]), events[|events| - 1]);
    }
  }

  /**
   Across any run with power cuts, resets and selections anywhere, the comparisons since a PIN
   was last accepted or set and the retries flash may hold never exceed three together.
   */
  lemma OathAttemptsBounded(crypto: Crypto, image: map<nat, File>, events: seq<Event>)
    requires Affordable(At(image, EF_OTP_PIN), 0)
    requires Run(crypto, PowerUp(image, 0), events)
    ensures var s := Play(crypto, PowerUp(image, 0), events);
            forall file :: file in Poss(s.flash, EF_OTP_PIN) && file.Some? && file.value.PinRecord? ==>
              s.tries + file.value.retries <= MAX_OTP_COUNTER
  {
    BootCoherent(image);
    RunBounded(crypto, PowerUp(image, 0), events);
  }

  // ---------- What opens the application ----------

  /** The PIN offered is compared with the one stored and is the same. */
  predicate GivesPin(s: Device, c: Command) {
    c.VerifyPin? && Stored(s).Some? && Stored(s).value.retries > 0 && c.pin.Some? && c.persisted.Durable? &&
    Matches(Stored(s).value, c.pin.value)
  }

  /** The PIN offered is compared and differs, or is no longer compared at all. */
  predicate MissesPin(s: Device, c: Command) {
    c.VerifyPin? && Stored(s).Some? && c.pin.Some? &&
    (Stored(s).value.retries == 0 || (c.persisted.Durable? && !Matches(Stored(s).value, c.pin.value)))
  }

  /** The key whose holder can answer the challenge: there is none if the stored code does not open to a usable key. */
  function AnswerKey(crypto: Crypto, s: Device): Option<Value> {
    if HasCode(s) && OpenCode(crypto, s).Some? && WellSized(OpenCode(crypto, s).value) &&
      Oath.KnownHash(OpenCode(crypto, s).value)
    then OpenCode(crypto, s) else None
  }

  /** A question and an answer are given, and the answer is right, or there is no code to ask for. */
  predicate Answers(crypto: Crypto, s: Device, c: Command) {
    c.Validate? && c.question.Some? && c.answer.Some? &&
    (!HasCode(s) || (AnswerKey(crypto, s).Some? &&
      c.answer.value == crypto.mac(AnswerKey(crypto, s).value, s.challenge)))
  }

  predicate Opens(crypto: Crypto, s: Device, e: Event) {
    match e
    case Request(c) => s.selected &&
      ((GivesPin(s, c) && c.writes) || Answers(crypto, s, c) || (c.Reset? && c.confirmed))
    case Select(_, migrates) => !HasCode(s) && !HasPin(s) && (s.selected || migrates)
    case PowerCut(_) => false
  }

  predicate Closes(crypto: Crypto, s: Device, e: Event) {
    match e
    case Request(c) => s.selected && (MissesPin(s, c) || (c.SetCode? && HasProof(crypto, s, c)))
    case Select(_, _) => HasCode(s) || HasPin(s)
    case PowerCut(_) => true
  }

  /** A new code is accepted. */
  predicate HasProof(crypto: Crypto, s: Device, c: Command)
    requires c.SetCode?
  {
    s.validated && !c.empty && c.writes && c.key.Some? && WellSized(c.key.value) && Oath.KnownHash(c.key.value) &&
    c.question.Some? && c.answer.Some? && c.answer.value == crypto.mac(c.key.value, c.question.value)
  }

  lemma AfterAdmits(crypto: Crypto, s: Device, e: Event)
    ensures Admits(After(crypto, s, e)) <==> Opens(crypto, s, e) || (Admits(s) && !Closes(crypto, s, e))
    ensures !(Opens(crypto, s, e) && Closes(crypto, s, e))
  {
    hide Oath.LooksSealed, Oath.KnownHash, Protected;
  }

  ghost predicate OpenedAt(crypto: Crypto, s: Device, events: seq<Event>, i: nat)
    requires i < |events|
  {
    Opens(crypto, Play(crypto, s, events[..i]), events[i]) &&
    forall j :: i < j < |events| ==> !Closes(crypto, Play(crypto, s, events[..j]), events[j])
  }

  /**
   In every run from power-up the application is open if and only if something opened it and
   nothing has closed it since. What opens it is the right PIN, a right answer for the access
   code, any answer when there is no code, a reset, or a selection with neither PIN nor code;
   what closes it is a wrong PIN, a new code, a power cut, or a selection with either.
   */
  lemma {:induction false} OpenIffOpened(crypto: Crypto, image: map<nat, File>, events: seq<Event>)
    ensures Admits(Play(crypto, PowerUp(image, 0), events)) <==>
      exists i: nat :: i < |events| && OpenedAt(crypto, PowerUp(image, 0), events, i)
    decreases |events|
  {
    hide After, Opens, Closes;
    var s := PowerUp(image, 0);
    if events != [] {
      var n := |events| - 1;
      var shorter := events[..n];
      OpenIffOpened(crypto, image, shorter);
      AfterAdmits(crypto, Play(crypto, s, shorter), events[n]);
      forall i: nat | i < n
        ensures OpenedAt(crypto, s, events, i) <==>
          OpenedAt(crypto, s, shorter, i) && !Closes(crypto, Play(crypto, s, shorter), events[n])
      {
        OpenedLonger(crypto, s, events, i);
      }
      assert OpenedAt(crypto, s, events, n) <==> Opens(crypto, Play(crypto, s, shorter), events[n]);
    }
  }

  lemma OpenedLonger(crypto: Crypto, s: Device, events: seq<Event>, i: nat)
    requires i < |events| - 1
    ensures var n := |events| - 1;
            OpenedAt(crypto, s, events, i) <==>
              OpenedAt(crypto, s, events[..n], i) && !Closes(crypto, Play(crypto, s, events[..n]), events[n])
  {
    hide After, Opens, Closes, Play;
    var n := |events| - 1;
    var shorter := events[..n];
    assert forall j :: 0 <= j <= n ==> shorter[..j] == events[..j];
    if OpenedAt(crypto, s, shorter, i) && !Closes(crypto, Play(crypto, s, shorter), events[n]) {
      forall j | i < j < |events| ensures !Closes(crypto, Play(crypto, s, events[..j]), events[j]) {
        if j < n {
          assert !Closes(crypto, Play(crypto, s, shorter[..j]), shorter[j]);
        }
      }
    }
    if OpenedAt(crypto, s, events, i) {
      assert !Closes(crypto, Play(crypto, s, events[..n]), events[n]);
      forall j | i < j < n ensures !Closes(crypto, Play(crypto, s, shorter[..j]), shorter[j]) {
        assert !Closes(crypto, Play(crypto, s, events[..j]), events[j]);
      }
    }
  }

  // ---------- Whether the PIN guards the application ----------

  /** With a PIN but no access code, any answer to VALIDATE opens the application, though it reports a failure. */
  lemma PinWithoutCodeIsBypassed(crypto: Crypto, s: Device, question: Value, answer: Value)
    requires s.selected && HasPin(s) && !HasCode(s)
    ensures var r := Perform(crypto, s, Validate(Some(question), Some(answer)));
            Admits(r.device) && r.status == DataInvalid
  {
  }

  /**
   The exact condition under which a PIN guards a closed application, so that short of a reset
   only the right PIN opens it: there is an access code, and it opens to no usable key.
   */
  lemma PinGuardsIff(crypto: Crypto, s: Device)
    requires s.selected && HasPin(s) && !s.validated
    ensures (forall c: Command :: !c.Reset? && Admits(Perform(crypto, s, c).device) ==> GivesPin(s, c)) <==>
      HasCode(s) && AnswerKey(crypto, s).None?
  {
    hide Perform, GivesPin, OpenCode;
    if HasCode(s) && AnswerKey(crypto, s).None? {
      forall c: Command | !c.Reset? && Admits(Perform(crypto, s, c).device) ensures GivesPin(s, c) {
        AfterAdmits(crypto, s, Request(c));
      }
    } else {
      var answer := if HasCode(s) then crypto.mac(AnswerKey(crypto, s).value, s.challenge) else [];
      var c := Validate(Some([]), Some(answer));
      AfterAdmits(crypto, s, Request(c));
      assert !GivesPin(s, c) by { ValidateGivesNone(s, c); }
    }
  }

  lemma ValidateGivesNone(s: Device, c: Command)
    requires c.Validate?
    ensures !GivesPin(s, c)
  {
  }

  ghost predicate CodesUsable(crypto: Crypto, flash: State<File>) {
    Coherent(flash) && forall file :: file in Poss(flash, EF_OATH_CODE) ==> UsableCode(crypto, file)
  }

  predicate UsableCode(crypto: Crypto, file: Option<File>) {
    file.Some? ==>
      file.value.Raw? && Oath.LooksSealed(file.value.data) && crypto.box.unseal(file.value.data).Some? &&
      WellSized(crypto.box.unseal(file.value.data).value) && Oath.KnownHash(crypto.box.unseal(file.value.data).value)
  }

  lemma StepUsable(crypto: Crypto, flash: State<File>, op: Op<File>)
    requires CodesUsable(crypto, flash)
    requires op.Put? && op.fid == EF_OATH_CODE ==> UsableCode(crypto, Some(op.file))
    ensures CodesUsable(crypto, Step(flash, op))
  {
    hide UsableCode;
    CoherentStep(flash, op);
    PossStep(flash, op, EF_OATH_CODE);
    assert At(flash.vol, EF_OATH_CODE) in Poss(flash, EF_OATH_CODE);
    if op.Del? {
      assert UsableCode(crypto, None) by { NoCodeUsable(crypto); }
    }
  }

  lemma NoCodeUsable(crypto: Crypto)
    ensures UsableCode(crypto, None)
  {
  }

  /** A key that looks sealed names no hash function, so it never becomes an access code. */
  lemma NewCodeUsable(crypto: Crypto, key: Value)
    requires Oath.Sound(crypto.box) && WellSized(key) && Oath.KnownHash(key)
    ensures UsableCode(crypto, Some(Raw(Protected(crypto, key))))
    ensures crypto.box.unseal(Protected(crypto, key)) == Some(key)
  {
    hide Oath.LooksSealed, Oath.KnownHash;
    if Oath.LooksSealed(key) {
      Oath.SealedIsUseless(key);
    }
    assert crypto.box.unseal(crypto.box.seal(key)) == Some(key);
  }

  lemma CheckUsable(crypto: Crypto, s: Device, stored: File, pin: Bytes, persisted: Persisted)
    requires CodesUsable(crypto, s.flash) && stored.PinRecord?
    ensures CodesUsable(crypto, CheckPin(s, stored, pin, persisted).0.flash)
  {
    hide CodesUsable;
    if stored.retries > 0 {
      var lower: Op<File> := Put(EF_OTP_PIN, stored.(retries := stored.retries - 1));
      StepUsable(crypto, s.flash, lower);
      StepUsable(crypto, Step(s.flash, lower), Sync);
    }
  }

  lemma EraseUsable(crypto: Crypto, s: Device, fid: nat)
    requires CodesUsable(crypto, s.flash)
    ensures CodesUsable(crypto, Erase(s, fid).flash)
  {
    hide CodesUsable;
    StepUsable(crypto, s.flash, Del(fid));
  }

  lemma RequestUsable(crypto: Crypto, s: Device, c: Command)
    requires Oath.Sound(crypto.box) && CodesUsable(crypto, s.flash)
    ensures CodesUsable(crypto, Perform(crypto, s, c).device.flash)
  {
    hide CodesUsable, UsableCode, CheckPin, Protected, Oath.KnownHash, Oath.Sound, OpenCode, Erase;
    EraseUsable(crypto, s, EF_OATH_CODE);
    EraseUsable(crypto, Erase(s, EF_OATH_CODE), EF_OTP_PIN);
    match c
    case SetPin(pin, _) =>
      if pin.Some? {
        StepUsable(crypto, s.flash, Put(EF_OTP_PIN, Fresh(pin.value)));
      }
    case SetCode(_, key, _, _, _, _) =>
      if key.Some? && WellSized(key.value) && Oath.KnownHash(key.value) {
        NewCodeUsable(crypto, key.value);
        StepUsable(crypto, s.flash, Put(EF_OATH_CODE, Raw(Protected(crypto, key.value))));
      }
    case ChangePin(pin, newPin, persisted, _) =>
      if Stored(s).Some? && pin.Some? && newPin.Some? {
        CheckUsable(crypto, s, Stored(s).value, pin.value, persisted);
        StepUsable(crypto, CheckPin(s, Stored(s).value, pin.value, persisted).0.flash,
          Put(EF_OTP_PIN, Fresh(newPin.value)));
      }
    case VerifyPin(pin, persisted, _) =>
      if Stored(s).Some? && pin.Some? {
        CheckUsable(crypto, s, Stored(s).value, pin.value, persisted);
        StepUsable(crypto, CheckPin(s, Stored(s).value, pin.value, persisted).0.flash,
          Put(EF_OTP_PIN, Fresh(pin.value)));
      }
    case _ =>
  }

  /** A usable code is sealed already, so a selection does not touch it. */
  lemma SelectUsable(crypto: Crypto, s: Device, challenge: Value, migrates: bool)
    requires CodesUsable(crypto, s.flash)
    ensures Selected(crypto, s, challenge, migrates).flash == s.flash
  {
    assert At(s.flash.vol, EF_OATH_CODE) in Poss(s.flash, EF_OATH_CODE);
  }

  lemma {:induction false} RunUsable(crypto: Crypto, s: Device, events: seq<Event>)
    requires Oath.Sound(crypto.box) && Run(crypto, s, events) && CodesUsable(crypto, s.flash)
    ensures CodesUsable(crypto, Play(crypto, s, events).flash)
    decreases |events|
  {
    hide CodesUsable, Perform, Selected, Oath.Sound;
    if events != [] {
      var before := Play(crypto, s, events[..|events| - 1]);
      RunUsable(crypto, s, events[..|events| - 1]);
      match events[|events| - 1]
      case Request(c) => RequestUsable(crypto, before, c);
      case Select(challenge, migrates) => SelectUsable(crypto, before, challenge, migrates);
      case PowerCut(image) => CutUsable(crypto, before.flash, image);
    }
  }

  lemma CutUsable(crypto: Crypto, flash: State<File>, image: map<nat, File>)
    requires CodesUsable(crypto, flash) && CrashImage(flash, image)
    ensures CodesUsable(crypto, Boot(image))
  {
    hide UsableCode;
    BootCoherent(image);
    assert At(image, EF_OATH_CODE) in Poss(flash, EF_OATH_CODE);
  }

  /**
   Over every run that starts without an access code, power cuts included, no state has a PIN
   that guards: whenever the application is closed, a VALIDATE that knows no PIN opens it. Where
   a code is set this takes the code's key; the PIN then is an alternative to it, not a second factor.
   */
  lemma PinNeverGuards(crypto: Crypto, image: map<nat, File>, events: seq<Event>)
    requires Oath.Sound(crypto.box) && EF_OATH_CODE !in image
    requires Run(crypto, PowerUp(image, 0), events)
    requires var s := Play(crypto, PowerUp(image, 0), events); s.selected && HasPin(s) && !s.validated
    ensures var s := Play(crypto, PowerUp(image, 0), events);
            HasCode(s) ==> AnswerKey(crypto, s).Some?
    ensures exists c: Command ::
      c.Validate? && Admits(Perform(crypto, Play(crypto, PowerUp(image, 0), events), c).device)
  {
    hide Perform, Run, Oath.Sound, Oath.LooksSealed, Oath.KnownHash;
    var s := Play(crypto, PowerUp(image, 0), events);
    BootCoherent(image);
    RunUsable(crypto, PowerUp(image, 0), events);
    assert At(s.flash.vol, EF_OATH_CODE) in Poss(s.flash, EF_OATH_CODE);
    var answer := if HasCode(s) then crypto.mac(AnswerKey(crypto, s).value, s.challenge) else [];
    var c := Validate(Some([]), Some(answer));
    AfterAdmits(crypto, s, Request(c));
  }

  /**
   A code just set closes the application; its key answers the next challenge, and the application
   proves it knows it too.
   */
  lemma CodeRoundTrip(crypto: Crypto, s: Device, c: Command, question: Value)
    requires Oath.Sound(crypto.box) && s.selected && c.SetCode? && HasProof(crypto, s, c)
    ensures var t := Perform(crypto, s, c).device;
            var r := Perform(crypto, t, Validate(Some(question), Some(crypto.mac(c.key.value, c.renewed))));
            !Admits(t) && r.status == Ok && Admits(r.device) && r.proof == Some(crypto.mac(c.key.value, question))
  {
    hide Oath.KnownHash, Protected, Oath.Sound;
    NewCodeUsable(crypto, c.key.value);
  }

  // ---------- The procedures ----------

  class Application {
    const crypto: Crypto
    var files: map<nat, File>
    ghost var flash: State<File>
    var selected: bool
    var validated: bool
    var challenge: Value
    ghost var tries: nat

    ghost predicate Valid()
      reads this
    {
      flash.vol == files
    }

    ghost function Now(): Device
      reads this
    {
      Device(flash, selected, validated, challenge, tries)
    }

    constructor (crypto: Crypto, image: map<nat, File>)
      ensures Valid() && this.crypto == crypto && Now() == PowerUp(image, 0)
    {
      this.crypto := crypto;
      files, flash, tries := image, Boot(image), 0;
      selected, validated, challenge := false, true, [];
    }

    method PutFile(fid: nat, file: File)
      requires Valid()
      modifies this`files, this`flash
      ensures Valid() && Now() == Write(old(Now()), fid, file)
    {
      files := files[fid := file];
      flash := Step(flash, Put(fid, file));
    }

    method DeleteFile(fid: nat)
      requires Valid()
      modifies this`files, this`flash
      ensures Valid() && Now() == Erase(old(Now()), fid)
    {
      if fid in files {
        files := files - {fid};
        flash := Step(flash, Del(fid));
      }
    }

    method Check(pin: Bytes, persisted: Persisted) returns (checked: Checked)
      requires Valid() && EF_OTP_PIN in files && files[EF_OTP_PIN].PinRecord?
      modifies this`files, this`flash, this`tries
      ensures Valid() && (Now(), checked) == CheckPin(old(Now()), old(files)[EF_OTP_PIN], pin, persisted)
    {
      var record := files[EF_OTP_PIN];
      if record.retries == 0 {
        return Blocked;
      }
      record := record.(retries := record.retries - 1);
      if persisted.WriteFails? {
        return StorageError;
      }
      PutFile(EF_OTP_PIN, record);
      if persisted.CommitTimesOut? {
        return StorageError;
      }
      flash := Step(flash, Sync);
      tries := tries + 1;
      if record.legacy && pin == [] {
        return Mismatched;
      }
      checked := if record.pin == pin then Matched else Mismatched;
    }

    method SetOtpPin(c: Command) returns (status: Status)
      requires Valid() && c.SetPin?
      modifies this
      ensures Valid() && Outcome(Now(), status, None) == PerformSetPin(old(Now()), c)
    {
      if !validated {
        return NotSatisfied;
      }
      if EF_OTP_PIN in files {
        return ConditionsNotSatisfied;
      }
      if c.pin.None? {
        return IncorrectParams;
      }
      if !c.writes {
        return MemoryFailure;
      }
      PutFile(EF_OTP_PIN, Fresh(c.pin.value));
      tries := 0;
      status := Ok;
    }

    method ChangeOtpPin(c: Command) returns (status: Status)
      requires Valid() && c.ChangePin?
      modifies this
      ensures Valid() && Outcome(Now(), status, None) == PerformWithPin(old(Now()), c)
    {
      if EF_OTP_PIN !in files || !files[EF_OTP_PIN].PinRecord? {
        return ConditionsNotSatisfied;
      }
      if c.pin.None? || c.newPin.None? {
        return IncorrectParams;
      }
      var checked := Check(c.pin.value, c.persisted);
      if checked == StorageError {
        return MemoryFailure;
      }
      if checked != Matched {
        return NotSatisfied;
      }
      if !c.writes {
        return MemoryFailure;
      }
      PutFile(EF_OTP_PIN, Fresh(c.newPin.value));
      tries := 0;
      status := Ok;
    }

    method VerifyOtpPin(c: Command) returns (status: Status)
      requires Valid() && c.VerifyPin?
      modifies this
      ensures Valid() && Outcome(Now(), status, None) == PerformWithPin(old(Now()), c)
    {
      if EF_OTP_PIN !in files || !files[EF_OTP_PIN].PinRecord? {
        return ConditionsNotSatisfied;
      }
      if c.pin.None? {
        return IncorrectParams;
      }
      var checked := Check(c.pin.value, c.persisted);
      if checked == StorageError {
        return MemoryFailure;
      }
      if checked != Matched {
        validated := false;
        return NotSatisfied;
      }
      if !c.writes {
        return MemoryFailure;
      }
      PutFile(EF_OTP_PIN, Fresh(c.pin.value));
      tries := 0;
      validated := true;
      status := Ok;
    }

    method SetAccessCode(c: Command) returns (status: Status)
      requires Valid() && c.SetCode?
      modifies this
      ensures Valid() && Outcome(Now(), status, None) == PerformSetCode(crypto, old(Now()), c)
    {
      if !validated {
        return NotSatisfied;
      }
      if c.empty {
        DeleteFile(EF_OATH_CODE);
        return Ok;
      }
      if c.key.None? {
        return IncorrectParams;
      }
      var key := c.key.value;
      if |key| == 1 || |key| > ACCESS_CODE_MAX {
        return WrongData;
      }
      if |key| == 0 {
        DeleteFile(EF_OATH_CODE);
        return Ok;
      }
      if c.question.None? || c.answer.None? || !Oath.KnownHash(key) {
        return IncorrectParams;
      }
      if crypto.mac(key, c.question.value) != c.answer.value {
        return DataInvalid;
      }
      challenge := c.renewed;
      if !c.writes {
        return ExecError;
      }
      PutFile(EF_OATH_CODE, Raw(Protected(crypto, key)));
      validated := false;
      status := Ok;
    }

    method ValidateCode(c: Command) returns (status: Status, proof: Option<Value>)
      requires Valid() && c.Validate?
      modifies this`validated
      ensures Valid() && Outcome(Now(), status, proof) == PerformValidate(crypto, old(Now()), c)
    {
      proof := None;
      if c.question.None? || c.answer.None? {
        return IncorrectParams, proof;
      }
      if EF_OATH_CODE !in files {
        validated := true;
        return DataInvalid, proof;
      }
      var file := files[EF_OATH_CODE];
      var key := if file.Raw? then Oath.OpenKey(crypto.box, file.data) else Some([]);
      if key.None? {
        return ExecError, proof;
      }
      if |key.value| < 2 || |key.value| > ACCESS_CODE_MAX {
        return WrongData, proof;
      }
      if !Oath.KnownHash(key.value) {
        return IncorrectParams, proof;
      }
      if crypto.mac(key.value, challenge) != c.answer.value {
        return DataInvalid, proof;
      }
      validated := true;
      status, proof := Ok, Some(crypto.mac(key.value, c.question.value));
    }

    method ResetApplication(c: Command) returns (status: Status)
      requires Valid() && c.Reset?
      modifies this
      ensures Valid() && Outcome(Now(), status, None) == PerformReset(old(Now()), c)
    {
      if !c.confirmed {
        return IncorrectP1P2;
      }
      DeleteFile(EF_OATH_CODE);
      DeleteFile(EF_OTP_PIN);
      validated := true;
      status := Ok;
    }

    method SelectApplication(renewed: Value, migrates: bool) returns (ok: bool)
      requires Valid()
      modifies this
      ensures Valid() && Now() == Selected(crypto, old(Now()), renewed, migrates) && ok == migrates
    {
      validated := EF_OATH_CODE !in files && EF_OTP_PIN !in files;
      if !migrates {
        return false;
      }
      if EF_OATH_CODE in files {
        var file := files[EF_OATH_CODE];
        if file.Raw? && !Oath.LooksSealed(file.data) {
          PutFile(EF_OATH_CODE, Raw(crypto.box.seal(file.data)));
        }
        challenge := renewed;
      }
      selected := true;
      ok := true;
    }
  }
}
