/**
 What every run of the PIN and token commands keeps: the bound on PIN attempts across
 power cuts, the minimum-length policy, and the rights a token carries.
 */
module PinSafety {
  import opened Basics
  import opened Flash
  import opened ClientPin

  // ---------- Runs ----------

  datatype Event =
    | Request(now: nat, command: Command)
    | PowerCut(image: map<nat, Cfg>)

  function After(s: Device, e: Event): Device {
    match e
    case Request(now, c) => Dispatch(s, now, c).device
    case PowerCut(image) => PowerUp(image, s.tries)
  }

  ghost predicate Enabled(s: Device, e: Event) {
    e.PowerCut? ==> CrashImage(s.flash, e.image)
  }

  function Play(s: Device, events: seq<Event>): Device {
    if events == [] then s else After(Play(s, events[..|events| - 1]), events[|events| - 1])
  }

  ghost predicate Run(s: Device, events: seq<Event>) {
    events == [] ||
    (Run(s, events[..|events| - 1]) && Enabled(Play(s, events[..|events| - 1]), events[|events| - 1]))
  }

  // ---------- The bound on attempts ----------

  /** What the attempts since the last success leave of the allowance, in a file that may be in flash. */
  predicate Affordable(file: Option<Cfg>, tries: nat) {
    match file
    case None => tries == 0
    case Some(PinFile(retries, _, _, _)) => tries + retries <= MAX_PIN_RETRIES
    case Some(_) => false
  }

  ghost predicate AttemptsBounded(flash: State<Cfg>, tries: nat) {
    Coherent(flash) &&
    forall file :: file in Poss(flash, EF_PIN) ==> Affordable(file, tries)
  }

  lemma StoredAffordable(flash: State<Cfg>, tries: nat)
    requires AttemptsBounded(flash, tries)
    ensures EF_PIN in flash.vol ==> StoredPin(flash.vol).Some?
    ensures Affordable(StoredPin(flash.vol), tries)
  {
    assert At(flash.vol, EF_PIN) in Poss(flash, EF_PIN);
  }

  lemma WriteBounded(flash: State<Cfg>, tries: nat, fid: nat, file: Cfg)
    requires AttemptsBounded(flash, tries)
    requires fid == EF_PIN ==> Affordable(Some(file), tries)
    ensures AttemptsBounded(Step(flash, Put(fid, file)), tries)
  {
    CoherentStep(flash, Put(fid, file));
    PossStep(flash, Put(fid, file), EF_PIN);
  }

  /** After a commit flash can only hold what the volatile view shows. */
  lemma CommitBounded(flash: State<Cfg>, before: nat, tries: nat)
    requires AttemptsBounded(flash, before)
    requires Affordable(StoredPin(flash.vol), tries)
    ensures AttemptsBounded(Step(flash, Sync), tries)
  {
    CoherentStep(flash, Sync);
    PossStep(flash, Sync, EF_PIN);
    StoredAffordable(flash, before);
  }

  lemma SuccessBounded(flash: State<Cfg>, tries: nat)
    requires AttemptsBounded(flash, tries)
    ensures AttemptsBounded(flash, 0)
  {
    forall file | file in Poss(flash, EF_PIN) ensures Affordable(file, 0) {
      assert Affordable(file, tries);
    }
  }

  lemma CutBounded(flash: State<Cfg>, tries: nat, image: map<nat, Cfg>)
    requires AttemptsBounded(flash, tries) && CrashImage(flash, image)
    ensures AttemptsBounded(Boot(image), tries)
  {
    BootCoherent(image);
    assert At(image, EF_PIN) in Poss(flash, EF_PIN);
  }

  lemma VerifyOkClears(s: Device, file: Cfg, offer: Offer)
    requires file.PinFile? && file.retries > 0 && VerifyPin(s, file, offer).status == Ok
    ensures VerifyPin(s, file, offer).device.tries == 0
    ensures PinMatches(file, offer) && offer.persisted.Durable? && offer.decrypts
  {
  }

  /** A comparison happens only once the lowered counter is all that flash can hold. */
  lemma VerifyBounded(s: Device, file: Cfg, offer: Offer)
    requires AttemptsBounded(s.flash, s.tries)
    requires StoredPin(s.flash.vol) == Some(file) && file.retries > 0
    ensures var r := VerifyPin(s, file, offer).device; AttemptsBounded(r.flash, r.tries)
  {
    hide AttemptsBounded;
    var lowered := file.(retries := file.retries - 1);
    StoredAffordable(s.flash, s.tries);
    WriteBounded(s.flash, s.tries, EF_PIN, lowered);
    var written := Step(s.flash, Put(EF_PIN, lowered));
    var durable := Step(written, Sync);
    CommitBounded(written, s.tries, s.tries);
    CommitBounded(written, s.tries, s.tries + 1);
    SuccessBounded(durable, s.tries + 1);
    WriteBounded(durable, 0, EF_PIN, lowered.(retries := MAX_PIN_RETRIES, legacy := false));
  }

  lemma InstallBounded(s: Device, pin: Bytes)
    requires AttemptsBounded(s.flash, 0) && s.tries == 0
    ensures var r := InstallPin(s, pin).device; AttemptsBounded(r.flash, r.tries)
  {
    hide AttemptsBounded;
    var file := PinFile(MAX_PIN_RETRIES, Codepoints(pin), false, pin);
    WriteBounded(s.flash, 0, EF_PIN, file);
    if ForceChange(s.flash.vol) {
      WriteBounded(Step(s.flash, Put(EF_PIN, file)), 0, EF_MINPINLEN, StoredMin(s.flash.vol).value.(force := false));
    }
  }

  lemma PinCommandBounded(s: Device, c: Command)
    requires c.ChangePin? || c.GetToken?
    requires AttemptsBounded(s.flash, s.tries)
    ensures var r := (if c.ChangePin? then PerformChangePin(s, c) else PerformGetToken(s, c)).device;
            AttemptsBounded(r.flash, r.tries)
  {
    hide AttemptsBounded, VerifyPin, InstallPin, NewPinStatus;
    var stored := StoredPin(s.flash.vol);
    if stored.Some? && stored.value.retries > 0 {
      VerifyBounded(s, stored.value, c.offer);
      var verified := VerifyPin(s, stored.value, c.offer);
      if c.ChangePin? && verified.status == Ok {
        VerifyOkClears(s, stored.value, c.offer);
        InstallBounded(verified.device, PinBytes(c.newPin.padded));
      }
    }
  }

  lemma DispatchBounded(s: Device, now: nat, c: Command)
    requires AttemptsBounded(s.flash, s.tries)
    ensures var r := Dispatch(s, now, c).device; AttemptsBounded(r.flash, r.tries)
  {
    hide AttemptsBounded, PerformChangePin, PerformGetToken, Initialize, PerformTestPresence, Tick, NewPinStatus,
      ReadUserVerified;
    PresenceTouchesSession(s.(session := Tick(s.session, now)), c);
    var ticked := s.(session := Tick(s.session, now));
    var t := ticked.(session := Initialize(ticked.session));
    StoredAffordable(t.flash, t.tries);
    match c
    case SetPin(_, _, newPin) =>
      var pin := PinBytes(newPin.padded);
      SuccessBounded(t.flash, t.tries);
      WriteBounded(t.flash, 0, EF_PIN, PinFile(MAX_PIN_RETRIES, Codepoints(pin), false, pin));
    case ChangePin(_, _, _, _, _, _) => PinCommandBounded(t, c);
    case GetToken(_, _, _, _, _, _, _) => PinCommandBounded(t, c);
    case SetMinPin(_, newMinimum, force, rpIds, _) =>
      var minimum := if newMinimum == 0 then MinPin(t.flash.vol) else newMinimum;
      var stored := StoredPin(t.flash.vol);
      var tooShort := stored.Some? && stored.value.length < minimum;
      var limits := MinPinFile(minimum, tooShort || force == Some(true), rpIds);
      WriteBounded(t.flash, t.tries, EF_MINPINLEN, limits);
      WriteBounded(Step(t.flash, Put(EF_MINPINLEN, limits)), t.tries, EF_PIN_COMPLEXITY, ComplexityFile(0));
    case SetComplexity(_, policy) => WriteBounded(t.flash, t.tries, EF_PIN_COMPLEXITY, ComplexityFile(policy));
    case _ =>
  }

  /** The presence step leaves everything but the token alone. */
  lemma PresenceTouchesSession(s: Device, c: Command)
    ensures c.TestPresence? ==>
      PerformTestPresence(s, c).device == s.(session := PerformTestPresence(s, c).device.session)
  {
    hide ConsumePresence, ReadUserPresent;
  }

  // ---------- Failures in a row ----------

  /** Failures in a row; the one that spends the last retry is not counted by the firmware. */
  predicate FailuresBounded(s: Device) {
    var stored := StoredPin(s.flash.vol);
    s.mismatches <= MAX_MISMATCHES &&
    (s.mismatches == MAX_MISMATCHES ==> s.needsPowerCycle) &&
    (s.failures <= s.mismatches ||
     (s.failures == s.mismatches + 1 && s.mismatches < MAX_MISMATCHES && stored.Some? && stored.value.retries == 0))
  }

  lemma VerifyFailures(s: Device, file: Cfg, offer: Offer)
    requires FailuresBounded(s) && !s.needsPowerCycle
    requires StoredPin(s.flash.vol) == Some(file) && file.retries > 0
    ensures FailuresBounded(VerifyPin(s, file, offer).device)
    ensures VerifyPin(s, file, offer).status == Ok ==> VerifyPin(s, file, offer).device.failures == 0
    ensures VerifyPin(s, file, offer).status == Ok ==> VerifyPin(s, file, offer).device.mismatches == 0
  {
  }

  lemma PinCommandFailures(s: Device, c: Command)
    requires c.ChangePin? || c.GetToken?
    requires FailuresBounded(s)
    ensures FailuresBounded((if c.ChangePin? then PerformChangePin(s, c) else PerformGetToken(s, c)).device)
  {
    hide VerifyPin, NewPinStatus, PermissionStatus, IssueToken;
    var stored := StoredPin(s.flash.vol);
    if stored.Some? && stored.value.retries > 0 && !s.needsPowerCycle {
      VerifyFailures(s, stored.value, c.offer);
    }
  }

  lemma DispatchFailures(s: Device, now: nat, c: Command)
    requires FailuresBounded(s)
    ensures FailuresBounded(Dispatch(s, now, c).device)
  {
    hide PerformChangePin, PerformGetToken, PerformTestPresence, NewPinStatus, Initialize, Tick, ReadUserVerified;
    PresenceTouchesSession(s.(session := Tick(s.session, now)), c);
    if c.ChangePin? || c.GetToken? {
      var ticked := s.(session := Tick(s.session, now));
      PinCommandFailures(ticked.(session := Initialize(ticked.session)), c);
    }
  }

  lemma PowerUpFailures(image: map<nat, Cfg>, tries: nat)
    ensures FailuresBounded(PowerUp(image, tries))
  {
  }

  // ---------- Whole runs ----------

  lemma {:induction false} RunBounds(s: Device, events: seq<Event>)
    requires Run(s, events)
    requires AttemptsBounded(s.flash, s.tries) && FailuresBounded(s)
    ensures var t := Play(s, events); AttemptsBounded(t.flash, t.tries) && FailuresBounded(t)
    decreases |events|
  {
    hide AttemptsBounded, FailuresBounded, Dispatch;
    if events != [] {
      var before := Play(s, events[..|events| - 1]);
      RunBounds(s, events[..|events| - 1]);
      match events[|events| - 1]
      case Request(now, c) =>
        DispatchBounded(before, now, c);
        DispatchFailures(before, now, c);
      case PowerCut(image) =>
        CutBounded(before.flash, before.tries, image);
        PowerUpFailures(image, before.tries);
    }
  }

  /**
   Across any run with power cuts anywhere, the comparisons made since the last success and
   the retries flash may hold never exceed the allowance together, and no more than three
   comparisons in a row fail before power is cut.
   */
  lemma PinAttemptsBounded(image: map<nat, Cfg>, events: seq<Event>)
    requires Affordable(At(image, EF_PIN), 0)
    requires Run(PowerUp(image, 0), events)
    ensures var s := Play(PowerUp(image, 0), events);
            s.failures <= MAX_MISMATCHES &&
            forall file :: file in Poss(s.flash, EF_PIN) && file.Some? ==>
              file.value.PinFile? && s.tries + file.value.retries <= MAX_PIN_RETRIES
  {
    BootCoherent(image);
    PowerUpFailures(image, 0);
    RunBounds(PowerUp(image, 0), events);
  }

  /** A failed comparison was paid for beforehand: flash can hold nothing but the lowered counter. */
  lemma FailedComparisonIsPaidFor(s: Device, file: Cfg, offer: Offer)
    requires StoredPin(s.flash.vol) == Some(file) && file.retries > 0
    requires offer.persisted.Durable? && offer.decrypts && !PinMatches(file, offer)
    ensures var t := VerifyPin(s, file, offer).device;
            t.tries == s.tries + 1 &&
            Poss(t.flash, EF_PIN) == iset{Some(file.(retries := file.retries - 1))}
    ensures VerifyPin(s, file, offer).status ==
      if file.retries == 1 then PinBlocked
      else if s.mismatches + 1 >= MAX_MISMATCHES then PinAuthBlocked
      else PinInvalid
  {
    var written := Write(s, EF_PIN, file.(retries := file.retries - 1));
    PossStep(written.flash, Sync, EF_PIN);
  }

  /** With no retries left the PIN commands neither compare nor write, whatever is offered. */
  lemma ExhaustedPinIsBlocked(s: Device, now: nat, c: Command)
    requires StoredPin(s.flash.vol).Some? && StoredPin(s.flash.vol).value.retries == 0
    requires c.SetPin? || c.ChangePin? || c.GetToken?
    ensures var r := Dispatch(s, now, c);
            r.status != Ok && r.device.flash == s.flash && r.device.tries == s.tries
  {
    hide VerifyPin, NewPinStatus, Tick, Initialize, PermissionStatus;
  }

  /** Whatever flash may hold, it is a PIN without retries. */
  ghost predicate Exhausted(flash: State<Cfg>) {
    Coherent(flash) && forall file :: file in Poss(flash, EF_PIN) ==> WithoutRetries(file)
  }

  predicate WithoutRetries(file: Option<Cfg>) {
    file.Some? && file.value.PinFile? && file.value.retries == 0
  }

  lemma ExhaustedStored(flash: State<Cfg>)
    requires Exhausted(flash)
    ensures StoredPin(flash.vol).Some? && StoredPin(flash.vol).value.retries == 0
  {
    assert At(flash.vol, EF_PIN) in Poss(flash, EF_PIN);
  }

  lemma ExhaustedWrite(flash: State<Cfg>, fid: nat, file: Cfg)
    requires Exhausted(flash) && fid != EF_PIN
    ensures Exhausted(Step(flash, Put(fid, file)))
  {
    CoherentStep(flash, Put(fid, file));
    PossStep(flash, Put(fid, file), EF_PIN);
  }

  lemma ExhaustedCut(flash: State<Cfg>, image: map<nat, Cfg>)
    requires Exhausted(flash) && CrashImage(flash, image)
    ensures Exhausted(Boot(image))
  {
    BootCoherent(image);
    assert At(image, EF_PIN) in Poss(flash, EF_PIN);
  }

  /** The commands that take no PIN write at most the limits and the complexity policy. */
  lemma OtherCommandWrites(s: Device, now: nat, c: Command)
    requires !c.SetPin? && !c.ChangePin? && !c.GetToken? && Exhausted(s.flash)
    ensures Exhausted(Dispatch(s, now, c).device.flash) && Dispatch(s, now, c).device.tries == s.tries
  {
    hide Exhausted, PerformTestPresence, PerformUseToken, Tick, Initialize, ResetToken, ResetPersistentToken;
    var ticked := s.(session := Tick(s.session, now));
    PresenceTouchesSession(ticked, c);
    UseTouchesSession(ticked, c);
    if c.SetMinPin? {
      LimitsKeepExhausted(ticked, c);
    } else if c.SetComplexity? {
      ExhaustedWrite(s.flash, EF_PIN_COMPLEXITY, ComplexityFile(c.policy));
    }
  }

  lemma UseTouchesSession(s: Device, c: Command)
    ensures c.UseToken? ==> PerformUseToken(s, c).device == s.(session := PerformUseToken(s, c).device.session)
  {
    hide Authorizes, ReadUserVerified;
  }

  lemma LimitsKeepExhausted(s: Device, c: Command)
    requires c.SetMinPin? && Exhausted(s.flash)
    ensures var r := PerformSetMinPin(s, c).device; Exhausted(r.flash) && r.tries == s.tries
  {
    hide Exhausted, ResetToken, ResetPersistentToken;
    if PerformSetMinPin(s, c).status == Ok {
      var limits := PerformSetMinPin(s, c).device.flash.vol[EF_MINPINLEN];
      ExhaustedWrite(s.flash, EF_MINPINLEN, limits);
      ExhaustedWrite(Step(s.flash, Put(EF_MINPINLEN, limits)), EF_PIN_COMPLEXITY, ComplexityFile(0));
    }
  }

  /**
   A PIN whose last retry is spent stays blocked over every run, power cuts included: nothing is
   ever compared with it again, and no PIN is set or changed and no token handed out.
   */
  lemma {:induction false} ExhaustedForGood(s: Device, events: seq<Event>)
    requires Exhausted(s.flash) && Run(s, events)
    ensures Exhausted(Play(s, events).flash) && Play(s, events).tries == s.tries
    ensures forall now: nat, c: Command :: c.SetPin? || c.ChangePin? || c.GetToken? ==>
      var r := Dispatch(Play(s, events), now, c);
      r.status != Ok && r.device.flash == Play(s, events).flash
    decreases |events|
  {
    hide Exhausted, Dispatch;
    if events != [] {
      var before := Play(s, events[..|events| - 1]);
      ExhaustedForGood(s, events[..|events| - 1]);
      match events[|events| - 1]
      case Request(now, c) =>
        if c.SetPin? || c.ChangePin? || c.GetToken? {
          ExhaustedStored(before.flash);
          ExhaustedPinIsBlocked(before, now, c);
        } else {
          OtherCommandWrites(before, now, c);
        }
      case PowerCut(image) => ExhaustedCut(before.flash, image);
    }
    ExhaustedStored(Play(s, events).flash);
    forall now: nat, c: Command | c.SetPin? || c.ChangePin? || c.GetToken?
      ensures var r := Dispatch(Play(s, events), now, c);
              r.status != Ok && r.device.flash == Play(s, events).flash
    {
      ExhaustedPinIsBlocked(Play(s, events), now, c);
    }
  }

  /** The comparison that spends the last retry, and fails, leads there. */
  lemma LastRetryExhausts(s: Device, file: Cfg, offer: Offer)
    requires StoredPin(s.flash.vol) == Some(file) && file.retries == 1 && Coherent(s.flash)
    requires offer.persisted.Durable? && offer.decrypts && !PinMatches(file, offer)
    ensures VerifyPin(s, file, offer).status == PinBlocked && Exhausted(VerifyPin(s, file, offer).device.flash)
  {
    var lower: Op<Cfg> := Put(EF_PIN, file.(retries := 0));
    CoherentStep(s.flash, lower);
    CoherentStep(Step(s.flash, lower), Sync);
    FailedComparisonIsPaidFor(s, file, offer);
  }

  // ---------- The minimum length ----------

  predicate WithinLbw(permissions: bv8) {
    permissions == 0 || permissions == PERMISSION_LBW
  }

  predicate Narrow(s: Session) {
    WithinLbw(s.token.permissions) && s.persistent == 0
  }

  /** A PIN is long enough or a change is being forced, and then no token can do anything but write blobs. */
  predicate PolicyKept(s: Device) {
    var files := s.flash.vol;
    var stored := StoredPin(files);
    DEFAULT_MIN_PIN <= MinPin(files) <= MAX_PIN_LENGTH &&
    (stored.Some? ==> stored.value.length == Codepoints(stored.value.pin)) &&
    (stored.Some? ==> stored.value.length >= MinPin(files) || ForceChange(files)) &&
    (ForceChange(files) ==> stored.Some? && Narrow(s.session))
  }

  /** What one command may do to the policy: raise the minimum, and end a forced change only by a new PIN. */
  predicate PolicyStep(s: Device, c: Command, r: Outcome) {
    var (before, after) := (s.flash.vol, r.device.flash.vol);
    MinPin(before) <= MinPin(after) &&
    (ForceChange(before) && !ForceChange(after) ==>
       c.ChangePin? && r.status == Ok &&
       StoredPin(before).Some? && StoredPin(after).Some? && StoredPin(before).value.pin != StoredPin(after).value.pin)
  }

  /** Steps on the token alone cannot widen it beyond blob writing. */
  lemma StaysNarrow(s: Session, now: nat)
    requires Narrow(s)
    ensures Narrow(Tick(s, now)) && Narrow(Initialize(s)) && Narrow(ConsumePresence(s))
    ensures Narrow(ReadUserVerified(s)) && Narrow(ReadUserPresent(s)) && Narrow(Invalidate(s))
  {
    assert Narrow(ClearUserPresent(s));
    assert Narrow(ClearUserVerified(ClearUserPresent(s)));
  }

  /** Verifying touches only the PIN file, and leaves the PIN itself and its length. */
  lemma VerifyKeepsPin(s: Device, file: Cfg, offer: Offer)
    requires StoredPin(s.flash.vol) == Some(file) && file.retries > 0
    ensures var t := VerifyPin(s, file, offer).device;
            StoredMin(t.flash.vol) == StoredMin(s.flash.vol) && Complexity(t.flash.vol) == Complexity(s.flash.vol) &&
            t.session == s.session &&
            StoredPin(t.flash.vol).Some? &&
            StoredPin(t.flash.vol).value.pin == file.pin && StoredPin(t.flash.vol).value.length == file.length
  {
    hide Poss;
    var lowered := Write(s, EF_PIN, file.(retries := file.retries - 1)).flash.vol;
    assert StoredMin(lowered) == StoredMin(s.flash.vol) && Complexity(lowered) == Complexity(s.flash.vol);
  }

  lemma ChangePinKeepsPolicy(s: Device, c: Command)
    requires c.ChangePin? && PolicyKept(s)
    ensures PolicyKept(PerformChangePin(s, c).device) && PolicyStep(s, c, PerformChangePin(s, c))
  {
    hide VerifyPin, Codepoints, PinBytes, MeetsPolicy;
    var stored := StoredPin(s.flash.vol);
    if stored.Some? && stored.value.retries > 0 {
      VerifyKeepsPin(s, stored.value, c.offer);
    }
  }

  lemma GetTokenKeepsPolicy(s: Device, c: Command)
    requires c.GetToken? && PolicyKept(s)
    ensures PolicyKept(PerformGetToken(s, c).device) && PolicyStep(s, c, PerformGetToken(s, c))
  {
    hide VerifyPin, IssueToken, PermissionStatus, Codepoints;
    var stored := StoredPin(s.flash.vol);
    if stored.Some? && stored.value.retries > 0 {
      VerifyKeepsPin(s, stored.value, c.offer);
    }
  }

  lemma SetMinPinKeepsPolicy(s: Device, c: Command)
    requires c.SetMinPin? && PolicyKept(s)
    ensures PolicyKept(PerformSetMinPin(s, c).device) && PolicyStep(s, c, PerformSetMinPin(s, c))
  {
    hide Codepoints;
  }

  lemma FirstPinKeepsPolicy(s: Device, c: Command)
    requires c.SetPin? && PolicyKept(s)
    ensures PolicyKept(PerformSetPin(s, c).device) && PolicyStep(s, c, PerformSetPin(s, c))
  {
    hide Codepoints, MeetsPolicy, PinBytes, Narrow;
  }

  lemma ComplexityKeepsPolicy(s: Device, c: Command)
    requires c.SetComplexity? && PolicyKept(s)
    ensures PolicyKept(PerformSetComplexity(s, c).device) && PolicyStep(s, c, PerformSetComplexity(s, c))
  {
    hide Codepoints, Narrow;
  }

  lemma DispatchKeepsPolicy(s: Device, now: nat, c: Command)
    requires PolicyKept(s)
    ensures PolicyKept(Dispatch(s, now, c).device) && PolicyStep(s, c, Dispatch(s, now, c))
  {
    hide PerformSetPin, PerformChangePin, PerformGetToken, PerformSetMinPin, PerformSetComplexity, PerformTestPresence,
      Codepoints, Tick, Initialize, ReadUserVerified, Narrow, Authorizes;
    var ticked := s.(session := Tick(s.session, now));
    var t := ticked.(session := Initialize(ticked.session));
    if ForceChange(s.flash.vol) {
      StaysNarrow(s.session, now);
      StaysNarrow(ticked.session, now);
    }
    match c
    case SetPin(_, _, _) => FirstPinKeepsPolicy(t, c);
    case SetComplexity(_, _) => ComplexityKeepsPolicy(ticked, c);
    case ChangePin(_, _, _, _, _, _) => ChangePinKeepsPolicy(t, c);
    case GetToken(_, _, _, _, _, _, _) => GetTokenKeepsPolicy(t, c);
    case SetMinPin(_, _, _, _, _) => SetMinPinKeepsPolicy(ticked, c);
    case TestPresence(_, _, _, _) =>
      PresenceTouchesSession(ticked, c);
      PresenceKeepsNarrow(ticked, c);
    case UseToken(_, _, _) => BindingKeepsNarrow(ReadUserVerified(ticked.session), c.rp);
    case _ =>
  }

  lemma PresenceKeepsNarrow(s: Device, c: Command)
    requires c.TestPresence?
    ensures Narrow(s.session) ==> Narrow(PerformTestPresence(s, c).device.session)
  {
    hide ConsumePresence, ReadUserPresent;
    if Narrow(s.session) {
      StaysNarrow(s.session, 0);
      StaysNarrow(ReadUserPresent(s.session), 0);
    }
  }

  lemma BindingKeepsNarrow(s: Session, rp: Bytes)
    ensures Narrow(s) ==> Narrow(s.(token := s.token.(rpId := Some(rp))))
  {
  }

  /** No power is cut in these runs. */
  predicate Uninterrupted(events: seq<Event>) {
    forall i :: 0 <= i < |events| ==> events[i].Request?
  }

  lemma {:induction false} RunKeepsPolicy(s: Device, events: seq<Event>)
    requires PolicyKept(s) && Uninterrupted(events)
    ensures PolicyKept(Play(s, events)) && MinPin(s.flash.vol) <= MinPin(Play(s, events).flash.vol)
    decreases |events|
  {
    hide PolicyKept, Dispatch;
    if events != [] {
      var e := events[|events| - 1];
      RunKeepsPolicy(s, events[..|events| - 1]);
      DispatchKeepsPolicy(Play(s, events[..|events| - 1]), e.now, e.command);
    }
  }

  // ---------- The rights of a token ----------

  /** An idle token has no rights, and the epoch is a function of how often it was advanced. */
  predicate TokenKept(s: Session) {
    (!s.token.inUse ==> s.token.permissions == 0 && !s.token.userPresent && !s.token.userVerified) &&
    (s.persistent == 0 || s.persistent == PERMISSION_PCMR) &&
    s.epoch == EpochAfter(s.invalidations)
  }

  function EpochAfter(n: nat): nat {
    1 + n % UINT32_MAX
  }

  lemma EpochSteps(n: nat)
    ensures EpochAfter(n + 1) == NextEpoch(EpochAfter(n))
  {
    var q, r := n / UINT32_MAX, n % UINT32_MAX;
    if r + 1 < UINT32_MAX {
      ModUnique(n + 1, q, r + 1, UINT32_MAX);
    } else {
      ModUnique(n + 1, q + 1, 0, UINT32_MAX);
    }
  }

  /** The epoch is never zero and does not come back before 2^32 - 1 further invalidations. */
  lemma EpochsDistinct(m: nat, n: nat)
    requires m <= n < m + UINT32_MAX
    ensures EpochAfter(m) != 0
    ensures EpochAfter(m) == EpochAfter(n) <==> m == n
  {
    if EpochAfter(m) == EpochAfter(n) {
      var d := n / UINT32_MAX - m / UINT32_MAX;
      assert n - m == d * UINT32_MAX;
    }
  }

  /** Some permission or flag held before is no longer held. */
  predicate Lost(a: Session, b: Session) {
    a.token.permissions & !b.token.permissions != 0 ||
    a.persistent & !b.persistent != 0 ||
    (a.token.inUse && !b.token.inUse) ||
    (a.token.userPresent && !b.token.userPresent) ||
    (a.token.userVerified && !b.token.userVerified)
  }

  /** The step keeps the token's shape, and loses nothing without advancing the epoch. */
  predicate Accounted(a: Session, b: Session) {
    TokenKept(b) && a.invalidations <= b.invalidations && (Lost(a, b) ==> a.invalidations < b.invalidations)
  }

  lemma AccountedTrans(a: Session, b: Session, c: Session)
    requires Accounted(a, b) && Accounted(b, c)
    ensures Accounted(a, c)
  {
  }

  lemma AccountedSame(s: Session)
    requires TokenKept(s)
    ensures Accounted(s, s)
  {
  }

  lemma PrimitivesAccounted(s: Session)
    requires TokenKept(s)
    ensures Accounted(s, Invalidate(s)) && Accounted(s, ReadUserVerified(s)) && Accounted(s, ReadUserPresent(s))
    ensures Accounted(s, ResetToken(s)) && Accounted(s, ResetPersistentToken(s)) && Accounted(s, StopUsing(s))
    ensures Accounted(s, ClearUserPresent(s)) && Accounted(s, ClearUserVerified(s)) &&
      Accounted(s, ClearPermissionsExceptLbw(s))
  {
    hide EpochAfter, NextEpoch;
    EpochSteps(s.invalidations);
  }

  lemma CompositesAccounted(s: Session, now: nat)
    requires TokenKept(s)
    ensures Accounted(s, Tick(s, now)) && Accounted(s, Initialize(s)) && Accounted(s, ConsumePresence(s))
    ensures Accounted(s, ResetToken(ResetPersistentToken(s))) && Accounted(s, ResetPersistentToken(ResetToken(s)))
  {
    hide TokenKept, StopUsing, ClearUserPresent, ClearUserVerified, ClearPermissionsExceptLbw, ResetPersistentToken,
      Lost;
    PrimitivesAccounted(s);
    AccountedSame(s);
    var absent := ClearUserPresent(s);
    PrimitivesAccounted(absent);
    var unverified := ClearUserVerified(absent);
    PrimitivesAccounted(unverified);
    AccountedTrans(s, absent, unverified);
    AccountedTrans(s, unverified, ClearPermissionsExceptLbw(unverified));
    PrimitivesAccounted(ResetPersistentToken(s));
    PrimitivesAccounted(ResetToken(s));
    AccountedTrans(s, ResetPersistentToken(s), ResetToken(ResetPersistentToken(s)));
    AccountedTrans(s, ResetToken(s), ResetPersistentToken(ResetToken(s)));
    InitializeAccounted(s);
  }

  lemma InitializeAccounted(s: Session)
    requires TokenKept(s)
    ensures Accounted(s, Initialize(s))
  {
    PrimitivesAccounted(s);
  }

  lemma IssueAccounted(s: Session, c: Command)
    requires TokenKept(s) && c.GetToken?
    ensures Accounted(s, IssueToken(s, c))
  {
    hide Granted, EpochAfter, NextEpoch;
    EpochSteps(s.invalidations);
    EpochSteps(s.invalidations + 1);
  }

  /** The only session a PIN command leaves behind: the same, a reset one, or one with a fresh token. */
  lemma PinCommandSession(s: Device, c: Command)
    ensures c.SetPin? ==> PerformSetPin(s, c).device.session == s.session
    ensures c.ChangePin? ==>
      PerformChangePin(s, c).device.session ==
        if PerformChangePin(s, c).status == Ok then ResetPersistentToken(ResetToken(s.session)) else s.session
    ensures c.GetToken? ==>
      PerformGetToken(s, c).device.session ==
        if PerformGetToken(s, c).status == Ok then IssueToken(s.session, c) else s.session
  {
    hide IssueToken, ResetToken, ResetPersistentToken, PermissionStatus, NewPinStatus, VerifyPin;
    var stored := StoredPin(s.flash.vol);
    if (c.ChangePin? || c.GetToken?) && stored.Some? && stored.value.retries > 0 {
      VerifyKeepsSession(s, stored.value, c.offer);
    }
  }

  lemma VerifyKeepsSession(s: Device, file: Cfg, offer: Offer)
    requires file.PinFile? && file.retries > 0
    ensures VerifyPin(s, file, offer).device.session == s.session
  {
  }

  lemma DispatchAccounted(s: Device, now: nat, c: Command)
    requires TokenKept(s.session)
    ensures Accounted(s.session, Dispatch(s, now, c).device.session)
  {
    hide Accounted, TokenKept, PerformSetPin, PerformChangePin, PerformGetToken, PerformTestPresence, IssueToken, Tick,
      Initialize, ResetToken, ResetPersistentToken, ReadUserVerified, Invalidate, Lost;
    var ticked := Tick(s.session, now);
    CompositesAccounted(s.session, now);
    AccountedKept(s.session, ticked);
    CompositesAccounted(ticked, now);
    PrimitivesAccounted(ticked);
    AccountedSame(ticked);
    var t := s.(session := ticked);
    var ready := Initialize(ticked);
    AccountedTrans(s.session, ticked, ready);
    AccountedKept(ticked, ready);
    PinCommandSession(t.(session := ready), c);
    var after := Dispatch(s, now, c).device.session;
    match c
    case SetPin(_, _, _) =>
    case ChangePin(_, _, _, _, _, _) =>
      CompositesAccounted(ready, now);
      AccountedSame(ready);
      AccountedTrans(s.session, ready, after);
    case GetToken(_, _, _, _, _, _, _) =>
      IssueAccounted(ready, c);
      AccountedSame(ready);
      AccountedTrans(s.session, ready, after);
    case UseToken(_, _, rp) =>
      var read := ReadUserVerified(ticked);
      AccountedKept(ticked, read);
      BindingAccounted(read, rp);
      AccountedTrans(ticked, read, read.(token := read.token.(rpId := Some(rp))));
      AccountedTrans(s.session, ticked, after);
    case TestPresence(_, _, _, _) =>
      PresenceAccounted(t, c);
      AccountedTrans(s.session, ticked, after);
    case _ => AccountedTrans(s.session, ticked, after);
  }

  lemma PresenceAccounted(s: Device, c: Command)
    requires c.TestPresence? && TokenKept(s.session)
    ensures Accounted(s.session, PerformTestPresence(s, c).device.session)
  {
    hide Accounted, TokenKept, ConsumePresence, ReadUserPresent;
    var read := ReadUserPresent(s.session);
    PrimitivesAccounted(s.session);
    AccountedSame(s.session);
    AccountedKept(s.session, read);
    CompositesAccounted(s.session, 0);
    CompositesAccounted(read, 0);
    AccountedTrans(s.session, read, ConsumePresence(read));
  }

  lemma AccountedKept(a: Session, b: Session)
    requires Accounted(a, b)
    ensures TokenKept(b)
  {
  }

  lemma BindingAccounted(s: Session, rp: Bytes)
    requires TokenKept(s)
    ensures Accounted(s, s.(token := s.token.(rpId := Some(rp))))
  {
  }

  lemma {:induction false} RunAccounted(s: Device, events: seq<Event>)
    requires TokenKept(s.session) && Uninterrupted(events)
    ensures Accounted(s.session, Play(s, events).session)
    decreases |events|
  {
    hide TokenKept, Accounted, Dispatch;
    if events == [] {
      AccountedSame(s.session);
    } else {
      var e := events[|events| - 1];
      var before := Play(s, events[..|events| - 1]);
      RunAccounted(s, events[..|events| - 1]);
      AccountedKept(s.session, before.session);
      DispatchAccounted(before, e.now, e.command);
      AccountedTrans(s.session, before.session, Dispatch(before, e.now, e.command).device.session);
    }
  }

  /**
   Whoever remembers the epoch of an authorization and finds it again later in the same
   power-up, fewer than 2^32 - 1 invalidations on, knows that nothing was taken away in between.
   */
  lemma SameEpochKeepsRights(s: Device, events: seq<Event>)
    requires TokenKept(s.session) && Uninterrupted(events)
    requires Play(s, events).session.invalidations < s.session.invalidations + UINT32_MAX
    ensures Play(s, events).session.epoch != 0
    ensures Play(s, events).session.epoch == s.session.epoch ==> !Lost(s.session, Play(s, events).session)
  {
    RunAccounted(s, events);
    EpochsDistinct(s.session.invalidations, Play(s, events).session.invalidations);
  }

  lemma NewSessionKept()
    ensures TokenKept(NewSession())
  {
    EpochSteps(0);
  }

  /** Across every run, power cuts included, an idle token has no permissions and no flags. */
  lemma {:induction false} RunKeepsToken(s: Device, events: seq<Event>)
    requires TokenKept(s.session)
    ensures TokenKept(Play(s, events).session)
    decreases |events|
  {
    hide TokenKept, Dispatch;
    if events != [] {
      var before := Play(s, events[..|events| - 1]);
      RunKeepsToken(s, events[..|events| - 1]);
      match events[|events| - 1]
      case Request(now, c) =>
        DispatchAccounted(before, now, c);
        AccountedKept(before.session, Dispatch(before, now, c).device.session);
      case PowerCut(_) => NewSessionKept();
    }
  }

  // ---------- How long a token lives ----------

  const ALL_BUT_LBW: bv8 := 0xEF

  /** `b` has no younger token than `a`, is not newly verified, and has no permission `a` lacks except blob writing. */
  predicate Descends(a: Session, b: Session) {
    TokenKept(b) &&
    (b.token.inUse ==>
       a.token.inUse && b.token.initialLimit == a.token.initialLimit && b.token.usageTimer == a.token.usageTimer) &&
    (b.token.userVerified ==> a.token.userVerified) &&
    Shrinks(a.token.permissions, b.token.permissions)
  }

  predicate Shrinks(a: bv8, b: bv8) {
    b & !a & ALL_BUT_LBW == 0
  }

  lemma ShrinksTo(a: bv8)
    ensures Shrinks(a, a) && Shrinks(a, 0) && Shrinks(a, PERMISSION_LBW)
  {
  }

  lemma DescendsTrans(a: Session, b: Session, c: Session)
    requires Descends(a, b) && Descends(b, c)
    ensures Descends(a, c)
  {
  }

  lemma PrimitivesDescend(s: Session)
    requires TokenKept(s)
    ensures Descends(s, s) && Descends(s, Invalidate(s)) && Descends(s, ReadUserVerified(s)) &&
      Descends(s, ReadUserPresent(s))
    ensures Descends(s, ResetToken(s)) && Descends(s, ResetPersistentToken(s)) && Descends(s, StopUsing(s)) &&
      Descends(s, Initialize(s))
    ensures Descends(s, ClearUserPresent(s)) && Descends(s, ClearUserVerified(s)) &&
      Descends(s, ClearPermissionsExceptLbw(s))
  {
    hide EpochAfter, NextEpoch, Shrinks;
    EpochSteps(s.invalidations);
    ShrinksTo(s.token.permissions);
  }

  lemma BindingDescends(s: Session, rp: Bytes)
    requires TokenKept(s)
    ensures Descends(s, s.(token := s.token.(rpId := Some(rp))))
  {
  }

  lemma DescendsKept(a: Session, b: Session)
    requires Descends(a, b)
    ensures TokenKept(b)
  {
  }

  lemma CompositesDescend(s: Session, now: nat)
    requires TokenKept(s)
    ensures Descends(s, Tick(s, now)) && Descends(s, ConsumePresence(s))
    ensures Descends(s, ResetToken(ResetPersistentToken(s))) && Descends(s, ResetPersistentToken(ResetToken(s)))
  {
    hide TokenKept, Descends, StopUsing, ClearUserPresent, ClearUserVerified, ClearPermissionsExceptLbw, ResetToken,
      ResetPersistentToken;
    PrimitivesDescend(s);
    var absent := ClearUserPresent(s);
    DescendsKept(s, absent);
    PrimitivesDescend(absent);
    var unverified := ClearUserVerified(absent);
    DescendsKept(absent, unverified);
    PrimitivesDescend(unverified);
    DescendsTrans(s, absent, unverified);
    DescendsTrans(s, unverified, ClearPermissionsExceptLbw(unverified));
    DescendsKept(s, ResetPersistentToken(s));
    DescendsKept(s, ResetToken(s));
    PrimitivesDescend(ResetPersistentToken(s));
    PrimitivesDescend(ResetToken(s));
    DescendsTrans(s, ResetPersistentToken(s), ResetToken(ResetPersistentToken(s)));
    DescendsTrans(s, ResetToken(s), ResetPersistentToken(ResetToken(s)));
  }

  /** The request hands out a fresh token. */
  predicate Issues(s: Device, e: Event) {
    e.Request? && e.command.GetToken? && e.command.permissions & 0x40 == 0 && Dispatch(s, e.now, e.command).status == Ok
  }

  lemma DispatchDescends(s: Device, now: nat, c: Command)
    requires TokenKept(s.session) && !Issues(s, Request(now, c))
    ensures Descends(s.session, Dispatch(s, now, c).device.session)
  {
    hide TokenKept, Descends, PerformSetPin, PerformChangePin, PerformGetToken, PerformTestPresence, PerformUseToken,
      Tick, Initialize, ResetToken, ResetPersistentToken, ReadUserVerified, Invalidate, IssueToken, PerformSetMinPin,
      PerformSetComplexity;
    var ticked := Tick(s.session, now);
    CompositesDescend(s.session, now);
    DescendsKept(s.session, ticked);
    CompositesDescend(ticked, now);
    PrimitivesDescend(ticked);
    var t := s.(session := ticked);
    var ready := Initialize(ticked);
    DescendsTrans(s.session, ticked, ready);
    DescendsKept(ticked, ready);
    PrimitivesDescend(ready);
    PinCommandSession(t.(session := ready), c);
    var after := Dispatch(s, now, c).device.session;
    match c
    case SetPin(_, _, _) =>
    case ChangePin(_, _, _, _, _, _) =>
      CompositesDescend(ready, now);
      DescendsTrans(s.session, ready, after);
    case GetToken(_, _, _, _, _, _, _) =>
      PersistentDescends(ready, c);
      DescendsTrans(s.session, ready, after);
    case SetMinPin(_, _, _, _, _) =>
      SetMinPinSession(t, c);
      DescendsTrans(s.session, ticked, after);
    case SetComplexity(_, _) =>
      ComplexitySession(t, c);
      DescendsTrans(s.session, ticked, after);
    case UseToken(_, _, _) =>
      UseDescends(t, c);
      DescendsTrans(s.session, ticked, after);
    case TestPresence(_, _, _, _) =>
      PresenceDescends(t, c);
      DescendsTrans(s.session, ticked, after);
    case _ => DescendsTrans(s.session, ticked, after);
  }

  lemma ComplexitySession(s: Device, c: Command)
    requires c.SetComplexity?
    ensures PerformSetComplexity(s, c).device.session == s.session
  {
  }

  lemma UseDescends(s: Device, c: Command)
    requires c.UseToken? && TokenKept(s.session)
    ensures Descends(s.session, PerformUseToken(s, c).device.session)
  {
    hide TokenKept, Descends, ReadUserVerified, Authorizes;
    var read := ReadUserVerified(s.session);
    PrimitivesDescend(s.session);
    DescendsKept(s.session, read);
    BindingDescends(read, c.rp);
    DescendsTrans(s.session, read, read.(token := read.token.(rpId := Some(c.rp))));
  }

  lemma PresenceDescends(s: Device, c: Command)
    requires c.TestPresence? && TokenKept(s.session)
    ensures Descends(s.session, PerformTestPresence(s, c).device.session)
  {
    hide TokenKept, Descends, ConsumePresence, ReadUserPresent;
    var read := ReadUserPresent(s.session);
    PrimitivesDescend(s.session);
    DescendsKept(s.session, read);
    CompositesDescend(s.session, 0);
    CompositesDescend(read, 0);
    DescendsTrans(s.session, read, ConsumePresence(read));
  }

  lemma PersistentDescends(s: Session, c: Command)
    requires TokenKept(s) && c.GetToken?
    ensures c.permissions & 0x40 != 0 ==> Descends(s, IssueToken(s, c))
  {
    hide Shrinks;
    ShrinksTo(s.token.permissions);
  }

  lemma SetMinPinSession(s: Device, c: Command)
    requires c.SetMinPin?
    ensures var r := PerformSetMinPin(s, c).device.session;
            r == s.session || r == ResetToken(ResetPersistentToken(s.session))
  {
    hide ResetToken, ResetPersistentToken;
  }

  ghost predicate NoIssue(s: Device, events: seq<Event>) {
    events == [] ||
    (NoIssue(s, events[..|events| - 1]) && !Issues(Play(s, events[..|events| - 1]), events[|events| - 1]))
  }

  /** Until the next issue, the permissions other than blob writing only shrink and no token grows younger. */
  lemma {:induction false} RunDescends(s: Device, events: seq<Event>)
    requires TokenKept(s.session) && NoIssue(s, events)
    ensures Descends(s.session, Play(s, events).session)
    decreases |events|
  {
    hide TokenKept, Descends, Dispatch, Issues;
    if events == [] {
      PrimitivesDescend(s.session);
    } else {
      var before := Play(s, events[..|events| - 1]);
      RunDescends(s, events[..|events| - 1]);
      DescendsKept(s.session, before.session);
      match events[|events| - 1]
      case Request(now, c) =>
        DispatchDescends(before, now, c);
        DescendsTrans(s.session, before.session, Dispatch(before, now, c).device.session);
      case PowerCut(image) => NewSessionDescends(s.session);
    }
  }

  lemma NewSessionDescends(s: Session)
    ensures Descends(s, NewSession())
  {
    NewSessionKept();
  }

  /** A token issued after the first millisecond has no permissions left for a command dispatched 30 s on. */
  lemma TokenLifetime(s: Device, events: seq<Event>, now: nat)
    requires TokenKept(s.session) && NoIssue(s, events)
    requires s.session.token.usageTimer != 0
    requires s.session.token.initialLimit + TRANSPORT_TIME_LIMIT <= now <= UINT32_MAX
    ensures Tick(Play(s, events).session, now).token.permissions == 0
  {
    hide Tick, TokenKept;
    RunDescends(s, events);
    DescendantExpires(s.session, Play(s, events).session, now);
  }

  lemma DescendantExpires(a: Session, b: Session, now: nat)
    requires Descends(a, b) && a.token.usageTimer != 0
    requires a.token.initialLimit + TRANSPORT_TIME_LIMIT <= now <= UINT32_MAX
    ensures Tick(b, now).token.permissions == 0
  {
    assert Add32(a.token.initialLimit, TRANSPORT_TIME_LIMIT) == a.token.initialLimit + TRANSPORT_TIME_LIMIT;
  }

  /** The exact condition: a token's life is limited if and only if the clock did not read zero at its issue. */
  lemma TokenExpiresIffTimed(s: Session)
    requires s.token.inUse && s.token.permissions != 0
    requires s.token.initialLimit <= s.token.usageTimer
    requires s.token.initialLimit + TRANSPORT_TIME_LIMIT <= UINT32_MAX
    ensures s.token.usageTimer != 0 <==>
      forall now: nat :: s.token.initialLimit + TRANSPORT_TIME_LIMIT <= now <= UINT32_MAX ==>
        Tick(s, now).token.permissions == 0
  {
    if s.token.usageTimer == 0 {
      assert Tick(s, TRANSPORT_TIME_LIMIT) == s;
    }
  }

  // ---------- What the user's presence leaves of a token ----------

  /** The token authorizes something besides blob writing. */
  predicate HasAuthority(token: Token) {
    token.userVerified && !WithinLbw(token.permissions)
  }

  /** After `events`, none of which issues a token, a request for something besides blob writing is still authorized. */
  ghost predicate StillAuthorizes(s: Device, events: seq<Event>, permission: bv8, rp: Bytes) {
    NoIssue(s, events) && permission & PERMISSION_LBW == 0 && Authorizes(Play(s, events).session.token, permission, rp)
  }

  ghost predicate KeepsAuthority(s: Device) {
    exists events, permission, rp :: StillAuthorizes(s, events, permission, rp)
  }

  /**
   The exact condition under which consent, once given, ends a token's authority until the next
   issue: the command uses it up, or the token had none left. A registration that does not name
   the option gets the user's consent and uses nothing up.
   */
  lemma PresenceEndsAuthorityIff(s: Device, now: nat, c: Command)
    requires TokenKept(s.session) && c.TestPresence? && Dispatch(s, now, c).status == Ok
    ensures !KeepsAuthority(Dispatch(s, now, c).device) <==>
      (c.up != Some(false) && (c.ceremony.Assertion? || c.up == Some(true))) ||
      !HasAuthority(Tick(s.session, now).token)
  {
    hide Tick, KeepsAuthority, HasAuthority, TokenKept, PerformTestPresence;
    var ticked := s.(session := Tick(s.session, now));
    CompositesAccounted(s.session, now);
    AccountedKept(s.session, ticked.session);
    PresenceAuthority(ticked, c);
    PresenceAccounted(ticked, c);
    AccountedKept(ticked.session, PerformTestPresence(ticked, c).device.session);
    AuthorityIsKept(PerformTestPresence(ticked, c).device);
  }

  lemma PresenceAuthority(s: Device, c: Command)
    requires TokenKept(s.session) && c.TestPresence? && PerformTestPresence(s, c).status == Ok
    ensures HasAuthority(PerformTestPresence(s, c).device.session.token) <==>
      !Consumes(c) && HasAuthority(s.session.token)
  {
    ConsumeAuthority(s.session);
    ConsumeAuthority(ReadUserPresent(s.session));
  }

  lemma ConsumeAuthority(s: Session)
    requires TokenKept(s)
    ensures !HasAuthority(ConsumePresence(s).token)
    ensures HasAuthority(ReadUserPresent(s).token) <==> HasAuthority(s.token)
  {
    assert ClearUserVerified(ClearUserPresent(s)).token.permissions == s.token.permissions;
  }

  /** Authority is what a later request can still use. */
  lemma AuthorityIsKept(s: Device)
    requires TokenKept(s.session)
    ensures KeepsAuthority(s) <==> HasAuthority(s.session.token)
  {
    hide TokenKept, HasAuthority, StillAuthorizes;
    if HasAuthority(s.session.token) {
      AuthorityServes(s);
    } else if KeepsAuthority(s) {
      var events, permission, rp :| StillAuthorizes(s, events, permission, rp);
      AuthorityDescends(s, events, permission, rp);
    }
  }

  lemma AuthorityServes(s: Device)
    requires HasAuthority(s.session.token)
    ensures KeepsAuthority(s)
  {
    hide Dispatch, Issues, Authorizes, HasAuthority;
    var permission, rp := SomeRequest(s.session.token);
    assert StillAuthorizes(s, [], permission, rp);
  }

  lemma AuthorityDescends(s: Device, events: seq<Event>, permission: bv8, rp: Bytes)
    requires TokenKept(s.session) && StillAuthorizes(s, events, permission, rp)
    ensures HasAuthority(s.session.token)
  {
    hide TokenKept, Dispatch, Play, NoIssue, Shrinks, WithinLbw;
    RunDescends(s, events);
    if WithinLbw(s.session.token.permissions) {
      NarrowStays(s.session.token.permissions, Play(s, events).session.token.permissions, permission);
    }
  }

  lemma SomeRequest(token: Token) returns (permission: bv8, rp: Bytes)
    requires HasAuthority(token)
    ensures permission & PERMISSION_LBW == 0 && Authorizes(token, permission, rp)
  {
    permission := SomePermission(token.permissions);
    rp := BoundParty(token, permission);
  }

  lemma BoundParty(token: Token, permission: bv8) returns (rp: Bytes)
    requires token.userVerified
    ensures token.permissions & permission != 0 ==> Authorizes(token, permission, rp)
  {
    rp := if token.rpId.Some? then token.rpId.value else [];
  }

  lemma SomePermission(permissions: bv8) returns (permission: bv8)
    requires !WithinLbw(permissions)
    ensures permission & PERMISSION_LBW == 0 && permissions & permission != 0
  {
    permission := permissions & ALL_BUT_LBW;
  }

  lemma NarrowStays(before: bv8, after: bv8, permission: bv8)
    requires WithinLbw(before) && Shrinks(before, after) && permission & PERMISSION_LBW == 0
    ensures after & permission == 0
  {
  }

  // ---------- What success takes ----------

  /** A fresh token goes only to whoever knows the PIN, while tries are left and no change is being forced. */
  lemma TokenTakesThePin(s: Device, now: nat, c: Command)
    requires Issues(s, Request(now, c))
    ensures StoredPin(s.flash.vol).Some? && StoredPin(s.flash.vol).value.pin == c.offer.pin
    ensures StoredPin(s.flash.vol).value.retries > 0 && !s.needsPowerCycle && !ForceChange(s.flash.vol)
    ensures var t := Dispatch(s, now, c).device.session.token;
            t.inUse && t.userVerified && !t.userPresent && t.rpId == c.rpId && t.permissions == Granted(c) &&
            t.initialLimit == c.initial && t.usageTimer == c.usage
  {
    hide Tick, Initialize, VerifyPin, Granted;
    var ticked := s.(session := Tick(s.session, now));
    var t := ticked.(session := Initialize(ticked.session));
    var file := StoredPin(t.flash.vol).value;
    VerifyOkClears(t, file, c.offer);
    VerifyKeepsPin(t, file, c.offer);
    PinCommandSession(t, c);
  }

  /** A first PIN is set only where there is none, long enough, with all retries. */
  lemma FirstPinIsSet(s: Device, now: nat, c: Command)
    requires c.SetPin? && Dispatch(s, now, c).status == Ok
    ensures StoredPin(s.flash.vol).None?
    ensures var (pin, t) := (PinBytes(c.newPin.padded), Dispatch(s, now, c).device);
            StoredPin(t.flash.vol) == Some(PinFile(MAX_PIN_RETRIES, Codepoints(pin), false, pin)) &&
            MinPin(s.flash.vol) <= Codepoints(pin) && |pin| < PADDED_PIN && MeetsPolicy(pin, Complexity(s.flash.vol))
  {
    hide Tick, Initialize, Codepoints, MeetsPolicy, PinBytes;
    PinBytesStop(c.newPin.padded);
  }

  lemma {:induction false} PinBytesStop(padded: Bytes)
    ensures |PinBytes(padded)| <= |padded|
    ensures |padded| > 0 && padded[|padded| - 1] == 0 ==> |PinBytes(padded)| < |padded|
    decreases |padded|
  {
    if padded != [] && padded[0] != 0 {
      PinBytesStop(padded[1..]);
    }
  }

  /** A successful change installs the PIN that was sent, long enough, with all retries, and ends every token. */
  lemma ChangeTakesThePin(s: Device, now: nat, c: Command)
    requires c.ChangePin? && Dispatch(s, now, c).status == Ok
    ensures StoredPin(s.flash.vol).Some? && StoredPin(s.flash.vol).value.pin == c.offer.pin
    ensures var (pin, t) := (PinBytes(c.newPin.padded), Dispatch(s, now, c).device);
            StoredPin(t.flash.vol) == Some(PinFile(MAX_PIN_RETRIES, Codepoints(pin), false, pin)) &&
            Codepoints(pin) >= MinPin(s.flash.vol) && MeetsPolicy(pin, Complexity(s.flash.vol)) &&
            !ForceChange(t.flash.vol) && t.session.token.permissions == 0 && t.session.persistent == 0
  {
    hide Tick, Initialize, VerifyPin, Codepoints, MeetsPolicy, PinBytes;
    var ticked := s.(session := Tick(s.session, now));
    var t := ticked.(session := Initialize(ticked.session));
    var file := StoredPin(t.flash.vol).value;
    VerifyOkClears(t, file, c.offer);
    VerifyKeepsPin(t, file, c.offer);
    PinCommandSession(t, c);
  }

  // ---------- Two tokens that outlive what should end them ----------

  /**
   A freshly started authenticator with a PIN, and a request for a token that may register, with the
   clock at `now`.
   */
  function Started(pin: Bytes): Device {
    PowerUp(map[EF_PIN := PinFile(MAX_PIN_RETRIES, Codepoints(pin), false, pin)], 0)
  }

  function Ask(pin: Bytes, permissions: bv64, now: nat): Command {
    GetToken(Agreement(true, 1, true, true), true, permissions, None, Offer(pin, true, Durable, true), now, now)
  }

  const MAY_REGISTER: bv64 := 0x01
  const MAY_CONFIGURE: bv64 := 0x20

  /** `now` is read on arrival, `issued` when the token is handed out. */
  lemma FirstTokenIssued(pin: Bytes, permissions: bv64, now: nat, issued: nat)
    requires permissions == MAY_REGISTER || permissions == MAY_CONFIGURE
    ensures var c := Ask(pin, permissions, issued);
            var t := Dispatch(Started(pin), now, c).device;
            Issues(Started(pin), Request(now, c)) && TokenKept(t.session) &&
            t.session.token == Token(true, Granted(c), None, false, true, issued, issued) &&
            t.flash.vol == Started(pin).flash.vol && !t.needsPowerCycle
  {
    hide Codepoints, TokenKept, BeginUsing, ResetToken, Granted, PerformGetToken;
    var s, c := Started(pin), Ask(pin, permissions, issued);
    var ready := Initialize(s.session);
    assert Tick(s.session, now) == s.session;
    FirstTokenGranted(s.(session := ready), pin, permissions, issued);
    NewSessionKept();
    DispatchAccounted(s, now, c);
    AccountedKept(s.session, Dispatch(s, now, c).device.session);
    FreshToken(ready, c);
  }

  lemma FirstTokenGranted(s: Device, pin: Bytes, permissions: bv64, now: nat)
    requires permissions == MAY_REGISTER || permissions == MAY_CONFIGURE
    requires s.flash == Started(pin).flash && !s.needsPowerCycle
    ensures var r := PerformGetToken(s, Ask(pin, permissions, now));
            r.status == Ok && r.device.session == IssueToken(s.session, Ask(pin, permissions, now)) &&
            r.device.flash.vol == s.flash.vol && !r.device.needsPowerCycle
  {
    hide Codepoints, IssueToken;
  }

  lemma FreshToken(s: Session, c: Command)
    requires c.GetToken? && c.permissions & 0x40 == 0
    ensures IssueToken(s, c).token == Token(true, Granted(c), c.rpId, false, true, c.initial, c.usage)
  {
  }

  lemma GrantedRights(pin: Bytes, now: nat)
    ensures Granted(Ask(pin, MAY_REGISTER, now)) == PERMISSION_MC
    ensures Granted(Ask(pin, MAY_CONFIGURE, now)) == PERMISSION_ACFG
  {
  }

  /**
   A token issued while the clock reads zero, right after power-up or when its 32 bits have come
   round, lasts for ever: no later look at the clock takes anything from it.
   */
  lemma ZeroReadingLasts(s: Device, now: nat, c: Command, later: nat)
    requires Issues(s, Request(now, c)) && c.usage == 0
    ensures var t := Dispatch(s, now, c).device.session;
            Tick(t, later) == t && t.token.inUse && t.token.permissions == Granted(c)
  {
    hide Dispatch, Issues, Granted;
    TokenTakesThePin(s, now, c);
  }

  /** With a PIN set, any such reading can be had: the request may come just before the clock comes round. */
  lemma ZeroReadingToken(pin: Bytes, now: nat, later: nat)
    requires now == 0 || now == UINT32_MAX
    ensures var c := Ask(pin, MAY_REGISTER, 0);
            Issues(Started(pin), Request(now, c)) &&
            Tick(Dispatch(Started(pin), now, c).device.session, later).token.permissions == PERMISSION_MC
  {
    hide Dispatch, Issues, Granted;
    FirstTokenIssued(pin, MAY_REGISTER, now, 0);
    GrantedRights(pin, 0);
    ZeroReadingLasts(Started(pin), now, Ask(pin, MAY_REGISTER, 0), later);
  }

  /** The usual registration, which does not name the option: touched, granted, and the token can register again. */
  lemma UsualRegistrationKeepsAuthority(pin: Bytes, now: nat)
    requires 0 < now < UINT32_MAX - MAX_USAGE_TIME
    ensures var s := Dispatch(Started(pin), now, Ask(pin, MAY_REGISTER, now)).device;
            var r := Dispatch(s, now, TestPresence(Registration, None, true, true));
            r.status == Ok && KeepsAuthority(r.device)
  {
    hide PerformGetToken, Issues, KeepsAuthority, TokenKept, Codepoints, Started, Ask, ConsumePresence, Granted;
    FirstTokenIssued(pin, MAY_REGISTER, now, now);
    GrantedRights(pin, now);
    var s := Dispatch(Started(pin), now, Ask(pin, MAY_REGISTER, now)).device;
    assert Tick(s.session, now) == s.session;
    PresenceEndsAuthorityIff(s, now, TestPresence(Registration, None, true, true));
  }
}
