/**
 The PIN policy under power cuts. The PIN and the minimum length live in two files that a
 cut may leave in different versions, so what counts is whether every version of one that
 flash may hold agrees with every version of the other.
 */
module PolicyRuns {
  import opened Basics
  import opened Flash
  import opened ClientPin
  import opened PinSafety

  // ---------- Two files that agree ----------

  predicate IsPin(file: Option<Cfg>) {
    file.Some? && file.value.PinFile?
  }

  function Minimum(limits: Option<Cfg>): nat {
    if limits.Some? && limits.value.MinPinFile? then limits.value.minimum else DEFAULT_MIN_PIN
  }

  predicate Forced(limits: Option<Cfg>) {
    limits.Some? && limits.value.MinPinFile? && limits.value.force
  }

  predicate Compatible(pin: Option<Cfg>, limits: Option<Cfg>) {
    DEFAULT_MIN_PIN <= Minimum(limits) <= MAX_PIN_LENGTH &&
    (IsPin(pin) ==>
       pin.value.length == Codepoints(pin.value.pin) &&
       (pin.value.length >= Minimum(limits) || Forced(limits))) &&
    (Forced(limits) ==> IsPin(pin))
  }

  /** Whatever versions of the two files a cut leaves, they agree. */
  ghost predicate Safe(flash: State<Cfg>) {
    forall pin, limits :: pin in Poss(flash, EF_PIN) && limits in Poss(flash, EF_MINPINLEN) ==> Compatible(pin, limits)
  }

  lemma PolicyIsCompatible(s: Device)
    ensures PolicyKept(s) <==>
      Compatible(At(s.flash.vol, EF_PIN), At(s.flash.vol, EF_MINPINLEN)) &&
        (ForceChange(s.flash.vol) ==> Narrow(s.session))
    ensures MinPin(s.flash.vol) == Minimum(At(s.flash.vol, EF_MINPINLEN))
    ensures ForceChange(s.flash.vol) <==> Forced(At(s.flash.vol, EF_MINPINLEN))
    ensures StoredPin(s.flash.vol) == if IsPin(At(s.flash.vol, EF_PIN)) then At(s.flash.vol, EF_PIN) else None
  {
    hide Codepoints;
  }

  function With<F>(files: map<nat, F>, fid: nat, file: Option<F>): map<nat, F> {
    if file.Some? then files[fid := file.value] else files - {fid}
  }

  /** The policy survives every power cut if and only if flash is safe. */
  lemma SafeIffCutsKeepPolicy(flash: State<Cfg>, tries: nat)
    ensures Safe(flash) <==> forall image :: CrashImage(flash, image) ==> PolicyKept(PowerUp(image, tries))
  {
    hide PolicyKept, Compatible;
    forall image | CrashImage(flash, image)
      ensures PolicyKept(PowerUp(image, tries)) <==> Compatible(At(image, EF_PIN), At(image, EF_MINPINLEN))
    {
      PolicyIsCompatible(PowerUp(image, tries));
    }
    forall pin, limits | pin in Poss(flash, EF_PIN) && limits in Poss(flash, EF_MINPINLEN)
      ensures exists image :: CrashImage(flash, image) && At(image, EF_PIN) == pin && At(image, EF_MINPINLEN) == limits
    {
      TwoFileImage(flash, pin, limits);
    }
  }

  lemma TwoFileImage(flash: State<Cfg>, pin: Option<Cfg>, limits: Option<Cfg>)
    requires pin in Poss(flash, EF_PIN) && limits in Poss(flash, EF_MINPINLEN)
    ensures exists image :: CrashImage(flash, image) && At(image, EF_PIN) == pin && At(image, EF_MINPINLEN) == limits
  {
    var image := With(With(flash.dur, EF_PIN, pin), EF_MINPINLEN, limits);
    forall fid: nat ensures At(image, fid) in Poss(flash, fid) {
      DurPossible(flash.dur, flash.log, fid);
    }
    assert CrashImage(flash, image);
  }

  // ---------- What single writes do to safety ----------

  /** No version of the minimum that flash may hold is above the current one. */
  ghost predicate MinimaBelow(flash: State<Cfg>) {
    forall limits :: limits in Poss(flash, EF_MINPINLEN) ==>
      DEFAULT_MIN_PIN <= Minimum(limits) <= Minimum(At(flash.vol, EF_MINPINLEN))
  }

  predicate SamePin(a: Option<Cfg>, b: Option<Cfg>) {
    IsPin(a) && IsPin(b) && a.value.pin == b.value.pin && a.value.length == b.value.length
  }

  /** Flash can hold no other PIN than the current one. */
  ghost predicate SamePins(flash: State<Cfg>) {
    forall pin :: pin in Poss(flash, EF_PIN) ==> SamePin(pin, At(flash.vol, EF_PIN))
  }

  lemma CompatibleCongruent(a: Option<Cfg>, b: Option<Cfg>, limits: Option<Cfg>)
    requires SamePin(a, b)
    ensures Compatible(a, limits) <==> Compatible(b, limits)
  {
    hide Codepoints;
  }

  lemma RetryWrite(flash: State<Cfg>, file: Cfg)
    requires Coherent(flash) && SamePin(Some(file), At(flash.vol, EF_PIN))
    ensures var t := Step(flash, Put(EF_PIN, file));
            Coherent(t) && (Safe(t) <==> Safe(flash)) && (MinimaBelow(flash) ==> MinimaBelow(t)) &&
            (SamePins(flash) ==> SamePins(t)) && At(t.vol, EF_MINPINLEN) == At(flash.vol, EF_MINPINLEN) &&
            Poss(t, EF_MINPINLEN) == Poss(flash, EF_MINPINLEN)
  {
    hide Compatible, Minimum, Possible;
    var t := Step(flash, Put(EF_PIN, file));
    CoherentStep(flash, Put(EF_PIN, file));
    PossStep(flash, Put(EF_PIN, file), EF_PIN);
    PossStep(flash, Put(EF_PIN, file), EF_MINPINLEN);
    assert Poss(t, EF_PIN) == Poss(flash, EF_PIN) + iset{Some(file)};
    assert At(t.vol, EF_MINPINLEN) == At(flash.vol, EF_MINPINLEN) && At(t.vol, EF_PIN) == Some(file);
    assert At(flash.vol, EF_PIN) in Poss(flash, EF_PIN);
    forall limits ensures Compatible(Some(file), limits) <==> Compatible(At(flash.vol, EF_PIN), limits) {
      CompatibleCongruent(Some(file), At(flash.vol, EF_PIN), limits);
    }
  }

  lemma CommitSettles(flash: State<Cfg>)
    requires Coherent(flash) && Compatible(At(flash.vol, EF_PIN), At(flash.vol, EF_MINPINLEN))
    ensures var t := Step(flash, Sync);
            Coherent(t) && Safe(t) && MinimaBelow(t) && (IsPin(At(flash.vol, EF_PIN)) ==> SamePins(t)) &&
            Poss(t, EF_MINPINLEN) == iset{At(flash.vol, EF_MINPINLEN)}
  {
    hide Codepoints;
    CoherentStep(flash, Sync);
    PossStep(flash, Sync, EF_PIN);
    PossStep(flash, Sync, EF_MINPINLEN);
  }

  /** A write to any other file changes nothing here. */
  lemma OtherWrite(flash: State<Cfg>, fid: nat, file: Cfg)
    requires Coherent(flash) && fid != EF_PIN && fid != EF_MINPINLEN
    ensures var t := Step(flash, Put(fid, file));
            Coherent(t) && (Safe(t) <==> Safe(flash)) && (MinimaBelow(flash) <==> MinimaBelow(t)) &&
              (SamePins(flash) <==> SamePins(t))
  {
    hide Compatible;
    CoherentStep(flash, Put(fid, file));
    PossStep(flash, Put(fid, file), EF_PIN);
    PossStep(flash, Put(fid, file), EF_MINPINLEN);
  }

  /** A new PIN that meets the current minimum meets every version of it. */
  lemma NewPinWrite(flash: State<Cfg>, file: Cfg)
    requires Coherent(flash) && MinimaBelow(flash) && file.PinFile? && file.length == Codepoints(file.pin)
    requires Minimum(At(flash.vol, EF_MINPINLEN)) <= file.length
    requires Minimum(At(flash.vol, EF_MINPINLEN)) <= MAX_PIN_LENGTH
    ensures var t := Step(flash, Put(EF_PIN, file));
            Coherent(t) && MinimaBelow(t) && (Safe(t) <==> Safe(flash))
  {
    hide Codepoints;
    CoherentStep(flash, Put(EF_PIN, file));
    PossStep(flash, Put(EF_PIN, file), EF_PIN);
    PossStep(flash, Put(EF_PIN, file), EF_MINPINLEN);
  }

  /** While flash can hold one PIN only, a new minimum it meets, or one that forces a change, is safe. */
  lemma LimitsWrite(flash: State<Cfg>, file: Cfg)
    requires Coherent(flash) && MinimaBelow(flash) && SamePins(flash) && file.MinPinFile?
    requires Compatible(At(flash.vol, EF_PIN), At(flash.vol, EF_MINPINLEN)) && !Forced(At(flash.vol, EF_MINPINLEN))
    requires Compatible(At(flash.vol, EF_PIN), Some(file)) && Minimum(At(flash.vol, EF_MINPINLEN)) <= file.minimum
    ensures var t := Step(flash, Put(EF_MINPINLEN, file));
            Coherent(t) && MinimaBelow(t) && SamePins(t) && Safe(t) && Safe(flash)
  {
    hide Codepoints;
    CoherentStep(flash, Put(EF_MINPINLEN, file));
    PossStep(flash, Put(EF_MINPINLEN, file), EF_PIN);
    PossStep(flash, Put(EF_MINPINLEN, file), EF_MINPINLEN);
  }

  /** Ending a forced change is safe exactly when the old PIN, which flash may still hold, met the minimum. */
  lemma UnforceWrite(flash: State<Cfg>, file: Cfg, unforced: Cfg)
    requires Coherent(flash) && MinimaBelow(flash) && SamePins(flash) && Safe(flash)
    requires Poss(flash, EF_MINPINLEN) == iset{At(flash.vol, EF_MINPINLEN)} && Forced(At(flash.vol, EF_MINPINLEN))
    requires unforced == At(flash.vol, EF_MINPINLEN).value.(force := false)
    requires file.PinFile? && file.length == Codepoints(file.pin) && Minimum(Some(unforced)) <= file.length
    ensures IsPin(At(flash.vol, EF_PIN))
    ensures var t := Step(Step(flash, Put(EF_PIN, file)), Put(EF_MINPINLEN, unforced));
            Coherent(t) && MinimaBelow(t) &&
            (Safe(t) <==> At(flash.vol, EF_PIN).value.length >= Minimum(At(flash.vol, EF_MINPINLEN)))
  {
    hide Codepoints;
    var mid := Step(flash, Put(EF_PIN, file));
    CoherentStep(flash, Put(EF_PIN, file));
    CoherentStep(mid, Put(EF_MINPINLEN, unforced));
    PossStep(flash, Put(EF_PIN, file), EF_PIN);
    PossStep(flash, Put(EF_PIN, file), EF_MINPINLEN);
    PossStep(mid, Put(EF_MINPINLEN, unforced), EF_PIN);
    PossStep(mid, Put(EF_MINPINLEN, unforced), EF_MINPINLEN);
    assert At(flash.vol, EF_PIN) in Poss(flash, EF_PIN);
    assert Compatible(At(flash.vol, EF_PIN), At(flash.vol, EF_MINPINLEN));
  }

  // ---------- What commands do to safety ----------

  /** The checks before the comparison all pass. */
  predicate Reaches(s: Device, c: Command)
    requires c.ChangePin? || c.GetToken?
  {
    c.agreement.complete && KnownProtocol(c.agreement.protocol) &&
    if c.ChangePin? then
      BeforeVerify(s, c.agreement, WholeBlocks(c.newPin.padded) && c.hashWellSized && |c.newPin.padded| <= 256) == Ok &&
        c.macValid
    else
      PermissionStatus(c) == Ok && BeforeVerify(s, c.agreement, true) == Ok
  }

  /** The command waits until everything written so far is in flash. */
  predicate Commits(s: Device, c: Command) {
    (c.ChangePin? || c.GetToken?) && Reaches(s, c) && c.offer.persisted.Durable?
  }

  /** The PIN in force does not meet the minimum. */
  predicate TooShort(s: Device) {
    StoredPin(s.flash.vol).Some? && StoredPin(s.flash.vol).value.length < MinPin(s.flash.vol)
  }

  lemma VerifySafety(s: Device, file: Cfg, offer: Offer)
    requires PolicyKept(s) && Coherent(s.flash) && MinimaBelow(s.flash)
    requires StoredPin(s.flash.vol) == Some(file) && file.retries > 0
    ensures var t := VerifyPin(s, file, offer).device.flash;
            Coherent(t) && MinimaBelow(t) && (SamePins(s.flash) ==> SamePins(t)) &&
            (Safe(t) <==> Safe(s.flash) || offer.persisted.Durable?) &&
            At(t.vol, EF_MINPINLEN) == At(s.flash.vol, EF_MINPINLEN) && SamePin(At(t.vol, EF_PIN), Some(file))
    ensures VerifyPin(s, file, offer).status == Ok ==>
      var t := VerifyPin(s, file, offer).device.flash;
      offer.persisted.Durable? && SamePins(t) && Poss(t, EF_MINPINLEN) == iset{At(t.vol, EF_MINPINLEN)}
  {
    hide Compatible, PolicyKept, Coherent, MinimaBelow, SamePins, Safe, Poss;
    PolicyIsCompatible(s);
    var lowered := file.(retries := file.retries - 1);
    RetryWrite(s.flash, lowered);
    var written := Step(s.flash, Put(EF_PIN, lowered));
    CompatibleCongruent(Some(lowered), Some(file), At(s.flash.vol, EF_MINPINLEN));
    CommitSettles(written);
    RetryWrite(Step(written, Sync), lowered.(retries := MAX_PIN_RETRIES, legacy := false));
  }

  lemma InstallSafety(s: Device, pin: Bytes)
    requires PolicyKept(s) && Coherent(s.flash) && MinimaBelow(s.flash) && SamePins(s.flash) && Safe(s.flash)
    requires Poss(s.flash, EF_MINPINLEN) == iset{At(s.flash.vol, EF_MINPINLEN)}
    requires MinPin(s.flash.vol) <= Codepoints(pin)
    ensures var r := InstallPin(s, pin);
            Coherent(r.device.flash) && MinimaBelow(r.device.flash) &&
            (r.status == Ok ==> Narrow(r.device.session)) && (r.status != Ok ==> r.device == s) &&
            (Safe(r.device.flash) <==> r.status != Ok || !ForceChange(s.flash.vol) || !TooShort(s))
  {
    hide Compatible, Coherent, MinimaBelow, SamePins, Safe, Poss, Codepoints;
    PolicyIsCompatible(s);
    var file := PinFile(MAX_PIN_RETRIES, Codepoints(pin), false, pin);
    NewPinWrite(s.flash, file);
    if ForceChange(s.flash.vol) {
      UnforceWrite(s.flash, file, StoredMin(s.flash.vol).value.(force := false));
    }
  }

  lemma ChangeSafety(s: Device, c: Command)
    requires c.ChangePin? && PolicyKept(s) && Coherent(s.flash) && MinimaBelow(s.flash)
    ensures var r := PerformChangePin(s, c);
            Coherent(r.device.flash) && MinimaBelow(r.device.flash) &&
            (r.status == Ok ==> Commits(s, c) && Narrow(r.device.session)) &&
            (r.status != Ok ==> SamePins(s.flash) ==> SamePins(r.device.flash)) &&
            (Safe(r.device.flash) <==>
               if r.status == Ok then !ForceChange(s.flash.vol) || !TooShort(s) else Safe(s.flash) || Commits(s, c))
  {
    hide Compatible, PolicyKept, Coherent, MinimaBelow, SamePins, Safe, Poss, Codepoints, VerifyPin, InstallPin,
      MeetsPolicy, PinBytes, Narrow;
    var stored := StoredPin(s.flash.vol);
    if stored.Some? && stored.value.retries > 0 {
      var verified := VerifyPin(s, stored.value, c.offer);
      VerifySafety(s, stored.value, c.offer);
      VerifyKeepsPolicy(s, stored.value, c.offer);
      PolicyIsCompatible(s);
      PolicyIsCompatible(verified.device);
      var pin := PinBytes(c.newPin.padded);
      if verified.status == Ok && MinPin(verified.device.flash.vol) <= Codepoints(pin) {
        InstallSafety(verified.device, pin);
      }
    }
  }

  lemma VerifyKeepsPolicy(s: Device, file: Cfg, offer: Offer)
    requires PolicyKept(s) && StoredPin(s.flash.vol) == Some(file) && file.retries > 0
    ensures PolicyKept(VerifyPin(s, file, offer).device)
  {
    hide VerifyPin, Codepoints, Narrow;
    VerifyKeepsPin(s, file, offer);
  }

  lemma TokenSafety(s: Device, c: Command)
    requires c.GetToken? && PolicyKept(s) && Coherent(s.flash) && MinimaBelow(s.flash)
    ensures var r := PerformGetToken(s, c);
            Coherent(r.device.flash) && MinimaBelow(r.device.flash) &&
            (SamePins(s.flash) || r.status == Ok ==> SamePins(r.device.flash)) &&
            (r.status != Ok ==> r.device.session == s.session) &&
            (Safe(r.device.flash) <==> Safe(s.flash) || Commits(s, c))
  {
    hide PolicyKept, Coherent, MinimaBelow, SamePins, Safe, Poss, VerifyPin, IssueToken, PermissionStatus;
    var stored := StoredPin(s.flash.vol);
    if stored.Some? && stored.value.retries > 0 {
      VerifySafety(s, stored.value, c.offer);
      VerifyKeepsSession(s, stored.value, c.offer);
    }
  }

  lemma FirstPinSafety(s: Device, c: Command)
    requires c.SetPin? && Steady(s)
    ensures var r := PerformSetPin(s, c);
            Coherent(r.device.flash) && MinimaBelow(r.device.flash) && (Safe(r.device.flash) <==> Safe(s.flash)) &&
            (r.device.flash == s.flash || Narrow(s.session)) && r.device.session == s.session
  {
    hide Compatible, PolicyKept, Coherent, MinimaBelow, Safe, Poss, Codepoints, MeetsPolicy, PinBytes, Narrow;
    PolicyIsCompatible(s);
    var pin := PinBytes(c.newPin.padded);
    if PerformSetPin(s, c).status == Ok {
      NoPinNarrow(s);
      LimitWithin(s);
      NewPinWrite(s.flash, PinFile(MAX_PIN_RETRIES, Codepoints(pin), false, pin));
    }
  }

  lemma LimitWithin(s: Device)
    requires PolicyKept(s)
    ensures MinPin(s.flash.vol) <= MAX_PIN_LENGTH
  {
    hide Codepoints, Narrow;
  }

  lemma NoPinNarrow(s: Device)
    requires Steady(s) && StoredPin(s.flash.vol).None?
    ensures Narrow(s.session)
  {
    hide PolicyKept, Poss, Narrow;
    PolicyIsCompatible(s);
    assert At(s.flash.vol, EF_PIN) in Poss(s.flash, EF_PIN);
  }

  /** What every state of every run satisfies; without power cuts nothing more is needed. */
  ghost predicate Steady(s: Device) {
    PolicyKept(s) && Coherent(s.flash) && MinimaBelow(s.flash) && (Narrow(s.session) || SamePins(s.flash))
  }

  /** A token that can do more than write blobs exists only while flash is safe. */
  lemma WideIsSafe(s: Device)
    requires Steady(s) && !Narrow(s.session)
    ensures Safe(s.flash) && !ForceChange(s.flash.vol)
  {
    hide Poss, Narrow, Codepoints;
    PolicyIsCompatible(s);
    assert At(s.flash.vol, EF_PIN) in Poss(s.flash, EF_PIN);
  }

  lemma LimitsSafety(s: Device, c: Command)
    requires c.SetMinPin? && Steady(s)
    ensures var r := PerformSetMinPin(s, c).device;
            Coherent(r.flash) && MinimaBelow(r.flash) && (Narrow(r.session) || SamePins(r.flash)) &&
              (Safe(r.flash) <==> Safe(s.flash))
  {
    hide Compatible, PolicyKept, Coherent, MinimaBelow, SamePins, Safe, Poss, Codepoints, Narrow, ResetToken,
      ResetPersistentToken;
    if PerformSetMinPin(s, c).status == Ok {
      ConfiguresWide(s.session);
      WideIsSafe(s);
      PolicyIsCompatible(s);
      SetMinPinKeepsPolicy(s, c);
      PolicyIsCompatible(PerformSetMinPin(s, c).device);
      var limits := PerformSetMinPin(s, c).device.flash.vol[EF_MINPINLEN];
      LimitsWrite(s.flash, limits);
      OtherWrite(Step(s.flash, Put(EF_MINPINLEN, limits)), EF_PIN_COMPLEXITY, ComplexityFile(0));
    }
  }

  lemma ConfiguresWide(s: Session)
    ensures s.token.permissions & PERMISSION_ACFG != 0 ==> !Narrow(s)
  {
  }

  // ---------- Whole runs ----------

  /** A forced change that has just replaced a PIN below the minimum: flash may still hold that PIN without the flag. */
  predicate Risky(s: Device, now: nat, c: Command) {
    c.ChangePin? && Dispatch(s, now, c).status == Ok && ForceChange(s.flash.vol) && TooShort(s)
  }

  lemma SessionSteady(s: Device, session: Session)
    requires Steady(s) && (Narrow(s.session) ==> Narrow(session))
    ensures Steady(s.(session := session))
  {
    hide Compatible, Coherent, MinimaBelow, SamePins, Narrow, PolicyKept;
    PolicyIsCompatible(s);
    PolicyIsCompatible(s.(session := session));
  }

  lemma DispatchSafety(s: Device, now: nat, c: Command)
    requires Steady(s)
    ensures var t := Dispatch(s, now, c).device;
            Steady(t) && (Safe(t.flash) <==> !Risky(s, now, c) && (Safe(s.flash) || Commits(s, c)))
  {
    hide Coherent, MinimaBelow, SamePins, Safe, PolicyKept, Narrow, Codepoints, PermissionStatus, PerformSetPin,
      PerformChangePin, PerformGetToken, PerformSetMinPin, PerformTestPresence, Tick, Initialize, ReadUserVerified;
    var ticked := s.(session := Tick(s.session, now));
    var t := ticked.(session := Initialize(ticked.session));
    if Narrow(s.session) {
      StaysNarrow(s.session, now);
      StaysNarrow(ticked.session, now);
    }
    SessionSteady(s, ticked.session);
    SessionSteady(s, t.session);
    DispatchKeepsPolicy(s, now, c);
    match c
    case SetPin(_, _, _) =>
      FirstPinSafety(t, c);
    case ChangePin(_, _, _, _, _, _) =>
      PinCommandSession(t, c);
      ChangeSafety(t, c);
    case GetToken(_, _, _, _, _, _, _) => TokenSafety(t, c);
    case SetMinPin(_, _, _, _, _) => LimitsSafety(ticked, c);
    case SetComplexity(_, policy) => OtherWrite(s.flash, EF_PIN_COMPLEXITY, ComplexityFile(policy));
    case UseToken(_, _, _) => BindingKeepsNarrow(ReadUserVerified(ticked.session), c.rp);
    case TestPresence(_, _, _, _) =>
      PresenceTouchesSession(ticked, c);
      PresenceKeepsNarrow(ticked, c);
    case _ =>
  }

  /** The last risky change of the run has not been followed by a commit or a power cut. */
  ghost predicate Exposed(s: Device, events: seq<Event>) {
    events != [] &&
    var (before, e) := (Play(s, events[..|events| - 1]), events[|events| - 1]);
    e.Request? &&
    (Risky(before, e.now, e.command) || (Exposed(s, events[..|events| - 1]) && !Commits(before, e.command)))
  }

  /** Power is never cut while the run is exposed. */
  ghost predicate SparesExposed(s: Device, events: seq<Event>) {
    events == [] ||
    (SparesExposed(s, events[..|events| - 1]) &&
     (events[|events| - 1].PowerCut? ==> !Exposed(s, events[..|events| - 1])))
  }

  lemma CutSteady(s: Device, image: map<nat, Cfg>)
    requires Safe(s.flash) && CrashImage(s.flash, image)
    ensures Steady(PowerUp(image, s.tries)) && Safe(PowerUp(image, s.tries).flash)
  {
    hide PolicyKept;
    SafeIffCutsKeepPolicy(s.flash, s.tries);
    PowerUpSteady(image, s.tries);
  }

  lemma PowerUpSteady(image: map<nat, Cfg>, tries: nat)
    requires PolicyKept(PowerUp(image, tries))
    ensures Steady(PowerUp(image, tries)) && Safe(PowerUp(image, tries).flash)
  {
    hide Codepoints, PolicyKept, Compatible;
    PolicyIsCompatible(PowerUp(image, tries));
    BootCoherent(image);
    BootLimits(image);
  }

  lemma BootLimits(image: map<nat, Cfg>)
    requires Compatible(At(image, EF_PIN), At(image, EF_MINPINLEN))
    ensures MinimaBelow(Boot(image)) && Safe(Boot(image))
  {
    hide Codepoints;
    BootCoherent(image);
  }

  lemma {:induction false} RunSafety(s: Device, events: seq<Event>)
    requires Steady(s) && Safe(s.flash)
    requires Run(s, events) && SparesExposed(s, events)
    ensures Steady(Play(s, events)) && (Safe(Play(s, events).flash) <==> !Exposed(s, events))
    decreases |events|
  {
    hide Steady, Safe, Dispatch, Risky, Commits;
    if events != [] {
      var before := Play(s, events[..|events| - 1]);
      RunSafety(s, events[..|events| - 1]);
      match events[|events| - 1]
      case Request(now, c) => DispatchSafety(before, now, c);
      case PowerCut(image) => CutSteady(before, image);
    }
  }

  /**
   Over every run with power cuts the policy is kept as long as power is not cut between a
   forced change that replaces a PIN below the minimum and the next commit; and at such a
   moment, and at no other, there is a cut that breaks it.
   */
  lemma PolicySurvivesCutIff(image: map<nat, Cfg>, events: seq<Event>)
    requires PolicyKept(PowerUp(image, 0))
    requires Run(PowerUp(image, 0), events) && SparesExposed(PowerUp(image, 0), events)
    ensures var s := Play(PowerUp(image, 0), events);
            PolicyKept(s) &&
            ((forall later :: CrashImage(s.flash, later) ==> PolicyKept(PowerUp(later, s.tries))) <==>
               !Exposed(PowerUp(image, 0), events))
  {
    hide PolicyKept, Safe, Exposed, SparesExposed, Run;
    PowerUpSteady(image, 0);
    RunSafety(PowerUp(image, 0), events);
    var s := Play(PowerUp(image, 0), events);
    SafeIffCutsKeepPolicy(s.flash, s.tries);
  }

  // ---------- One forced change ----------

  /** Verification commits first, so what was pending before a successful change does not matter. */
  lemma ChangeSettles(s: Device, c: Command)
    requires c.ChangePin? && PerformChangePin(s, c).status == Ok
    ensures PerformChangePin(s, c) == PerformChangePin(s.(flash := Boot(s.flash.vol)), c)
  {
    hide NewPinStatus, InstallPin, PinBytes;
  }

  /**
   After a successful forced change every power cut keeps the policy if and only if the PIN
   it replaced met the minimum.
   */
  lemma ForcedChangeSurvivesCutIff(s: Device, now: nat, c: Command, tries: nat)
    requires PolicyKept(s) && c.ChangePin? && ForceChange(s.flash.vol) && Dispatch(s, now, c).status == Ok
    ensures StoredPin(s.flash.vol).Some?
    ensures (forall image :: CrashImage(Dispatch(s, now, c).device.flash, image) ==>
      PolicyKept(PowerUp(image, tries))) <==>
      StoredPin(s.flash.vol).value.length >= MinPin(s.flash.vol)
  {
    hide PolicyKept, Safe, PerformChangePin, Tick, Initialize, Coherent, MinimaBelow;
    var ticked := s.(session := Tick(s.session, now));
    var ready := ticked.(session := Initialize(ticked.session));
    var t := ready.(flash := Boot(s.flash.vol));
    ForcedHasPin(s);
    ChangeSettles(ready, c);
    PolicyOfBoot(s, t, now);
    ChangeSafety(t, c);
    SafeIffCutsKeepPolicy(Dispatch(s, now, c).device.flash, tries);
  }

  lemma ForcedHasPin(s: Device)
    requires PolicyKept(s) && ForceChange(s.flash.vol)
    ensures StoredPin(s.flash.vol).Some?
  {
    hide Codepoints, Narrow;
  }

  lemma PolicyOfBoot(s: Device, t: Device, now: nat)
    requires PolicyKept(s) && t.flash == Boot(s.flash.vol) && t.session == Initialize(Tick(s.session, now))
    ensures PolicyKept(t) && Coherent(t.flash) && MinimaBelow(t.flash)
  {
    hide Codepoints, Tick, Initialize, Narrow;
    if Narrow(s.session) {
      StaysNarrow(s.session, now);
      StaysNarrow(Tick(s.session, now), now);
    }
    BootCoherent(s.flash.vol);
  }

  /** A run that ends exposed: set a minimum above the PIN's length, then change the PIN as that forces one to. */
  function Exposing(pin: Bytes, newPin: NewPin, now: nat): seq<Event> {
    [Request(now, Ask(pin, MAY_CONFIGURE, now)),
     Request(now, SetMinPin(true, Codepoints(pin) + 1, None, [], None)),
     Request(now, ChangePin(Agreement(true, 1, true, true), true, true, Offer(pin, true, Durable, true), newPin, true))]
  }

  lemma ForcedChangeExposes(pin: Bytes, newPin: NewPin, now: nat)
    requires DEFAULT_MIN_PIN <= Codepoints(pin) < MAX_PIN_LENGTH && 0 < now < UINT32_MAX - MAX_USAGE_TIME
    requires NewPinStatus(newPin, Codepoints(pin) + 1, 0) == Ok
    ensures Run(Started(pin), Exposing(pin, newPin, now)) && Exposed(Started(pin), Exposing(pin, newPin, now))
  {
    hide Dispatch, Codepoints, NewPinStatus, Started, Ask, Issues, TokenKept, Granted, Commits, Risky;
    var s, events := Started(pin), Exposing(pin, newPin, now);
    var two, one := [events[0], events[1]], [events[0]];
    assert events[..2] == two && two[..1] == one && one[..0] == [];
    assert Play(s, one[..0]) == s;
    assert Play(s, one) == Dispatch(s, now, events[0].command).device;
    assert Play(s, two) == Dispatch(Play(s, one), now, events[1].command).device;
    assert Run(s, one[..0]) && Run(s, one) && Run(s, two);
    FirstTokenIssued(pin, MAY_CONFIGURE, now, now);
    GrantedRights(pin, now);
    StartedFiles(pin);
    MinimumRaised(Play(s, one), now, pin);
    ForcedChangeSucceeds(Play(s, two), now, pin, newPin);
    assert Risky(Play(s, two), now, events[2].command);
  }

  lemma StartedFiles(pin: Bytes)
    ensures Started(pin).flash.vol == map[EF_PIN := PinFile(MAX_PIN_RETRIES, Codepoints(pin), false, pin)]
  {
  }

  lemma MinimumRaised(s: Device, now: nat, pin: Bytes)
    requires DEFAULT_MIN_PIN <= Codepoints(pin) < MAX_PIN_LENGTH && 0 < now < UINT32_MAX - MAX_USAGE_TIME
    requires s.flash.vol == map[EF_PIN := PinFile(MAX_PIN_RETRIES, Codepoints(pin), false, pin)] && !s.needsPowerCycle
    requires s.session.token == Token(true, PERMISSION_ACFG, None, false, true, now, now)
    ensures var t := Dispatch(s, now, SetMinPin(true, Codepoints(pin) + 1, None, [], None)).device;
            t.flash.vol == s.flash.vol[EF_MINPINLEN := MinPinFile(Codepoints(pin) + 1, true, [])] && !t.needsPowerCycle
  {
    hide Codepoints;
    assert Tick(s.session, now) == s.session;
  }

  lemma ForcedChangeSucceeds(s: Device, now: nat, pin: Bytes, newPin: NewPin)
    requires s.flash.vol ==
      map[EF_PIN := PinFile(MAX_PIN_RETRIES, Codepoints(pin), false, pin),
        EF_MINPINLEN := MinPinFile(Codepoints(pin) + 1, true, [])]
    requires !s.needsPowerCycle && NewPinStatus(newPin, Codepoints(pin) + 1, 0) == Ok
    ensures Risky(s, now, ChangePin(Agreement(true, 1, true, true), true, true, Offer(pin, true, Durable, true), newPin,
      true))
  {
    hide Codepoints, MeetsPolicy, PinBytes, Tick, Initialize, ResetToken, ResetPersistentToken;
    assert PinBytes(newPin.padded) != pin;
  }
}
