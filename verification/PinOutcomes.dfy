/**
 What every PIN command, and every command that uses a token, takes in order to succeed, and what it
 leaves: the same whether it is read from the request or from the answer. What a PIN's length is.
 */
module PinOutcomes {
  import opened Basics
  import opened Flash
  import opened ClientPin
  import opened PinSafety

  // ---------- The text of a PIN ----------

  const CODE_SPACE: bv32 := 0x110000

  /** One character in UTF-8 (section 3 of RFC 3629). */
  function Utf8(c: bv32): Bytes
    requires c < CODE_SPACE
  {
    if c < 0x80 then [c as bv8]
    else if c < 0x800 then [(0xC0 | (c >> 6)) as bv8, Tail(c)]
    else if c < 0x10000 then [(0xE0 | (c >> 12)) as bv8, Tail(c >> 6), Tail(c)]
    else [(0xF0 | (c >> 18)) as bv8, Tail(c >> 12), Tail(c >> 6), Tail(c)]
  }

  function Tail(c: bv32): bv8 {
    (0x80 | (c & 0x3F)) as bv8
  }

  function Encoded(text: seq<bv32>): Bytes
    requires forall i :: 0 <= i < |text| ==> text[i] < CODE_SPACE
  {
    if text == [] then [] else Encoded(text[..|text| - 1]) + Utf8(text[|text| - 1])
  }

  lemma OneCharacter(c: bv32)
    requires c < CODE_SPACE
    ensures Codepoints(Utf8(c)) == 1
  {
    hide StartsCodepoint, Tail;
    var bytes := Utf8(c);
    FirstByte(c);
    assert forall i :: 0 < i < |bytes| ==> !StartsCodepoint(bytes[i]) by {
      TailByte(c);
      TailByte(c >> 6);
      TailByte(c >> 12);
    }
    OneStart(bytes);
  }

  lemma FirstByte(c: bv32)
    requires c < CODE_SPACE
    ensures StartsCodepoint(Utf8(c)[0])
  {
  }

  lemma TailByte(c: bv32)
    ensures !StartsCodepoint(Tail(c))
  {
  }

  lemma {:induction false} OneStart(bytes: Bytes)
    requires bytes != [] && StartsCodepoint(bytes[0]) && forall i :: 0 < i < |bytes| ==> !StartsCodepoint(bytes[i])
    ensures Codepoints(bytes) == 1
    decreases |bytes|
  {
    hide StartsCodepoint;
    if |bytes| > 1 {
      OneStart(bytes[..|bytes| - 1]);
    }
  }

  lemma {:induction false} CodepointsAppend(a: Bytes, b: Bytes)
    ensures Codepoints(a + b) == Codepoints(a) + Codepoints(b)
    decreases |b|
  {
    hide StartsCodepoint;
    if b == [] {
      assert a + b == a;
    } else {
      assert (a + b)[..|a + b| - 1] == a + b[..|b| - 1];
      CodepointsAppend(a, b[..|b| - 1]);
    }
  }

  /** The length of a PIN is its number of characters, whatever they are. */
  lemma {:induction false} LengthIsCharacters(text: seq<bv32>)
    requires forall i :: 0 <= i < |text| ==> text[i] < CODE_SPACE
    ensures Codepoints(Encoded(text)) == |text|
    decreases |text|
  {
    hide Codepoints, Utf8;
    if text == [] {
      NoCharacters();
    } else {
      LengthIsCharacters(text[..|text| - 1]);
      CodepointsAppend(Encoded(text[..|text| - 1]), Utf8(text[|text| - 1]));
      OneCharacter(text[|text| - 1]);
    }
  }

  lemma NoCharacters()
    ensures Codepoints([]) == 0
  {
  }

  /** Padding a PIN with zeros and reading it back. */
  lemma {:induction false} PaddingComesOff(pin: Bytes, zeros: Bytes)
    requires (forall i :: 0 <= i < |pin| ==> pin[i] != 0) && zeros != [] && zeros[0] == 0
    ensures PinBytes(pin + zeros) == pin
    decreases |pin|
  {
    if pin != [] {
      assert (pin + zeros)[1..] == pin[1..] + zeros;
      PaddingComesOff(pin[1..], zeros);
    } else {
      assert pin + zeros == zeros;
    }
  }

  /** Every byte is in exactly one of the four classes, and the letters' two cases correspond. */
  lemma ClassesPartition(b: bv8)
    ensures IsSymbol(b) <==> !IsUpper(b) && !IsLower(b) && !IsDigit(b)
    ensures !(IsUpper(b) && IsLower(b)) && !(IsUpper(b) && IsDigit(b)) && !(IsLower(b) && IsDigit(b))
    ensures IsUpper(b) <==> b & 0x20 == 0 && IsLower(b | 0x20)
  {
  }

  /** For every class the policy asks for, the PIN has a byte of it: capital, small letter, digit, or anything else. */
  predicate HasClasses(pin: Bytes, policy: bv16) {
    (policy & 1 != 0 ==> exists i :: 0 <= i < |pin| && 0x41 <= pin[i] < 0x41 + 26) &&
    (policy & 2 != 0 ==> exists i :: 0 <= i < |pin| && 0x61 <= pin[i] < 0x61 + 26) &&
    (policy & 4 != 0 ==> exists i :: 0 <= i < |pin| && 0x30 <= pin[i] < 0x30 + 10) &&
    (policy & 8 != 0 ==> exists i ::
       0 <= i < |pin| && (pin[i] < 0x30 || 0x3A <= pin[i] < 0x41 || 0x5B <= pin[i] < 0x61 || 0x7B <= pin[i]))
  }

  lemma ClassesIff(pin: Bytes, policy: bv16)
    ensures MeetsPolicy(pin, policy) <==> HasClasses(pin, policy)
  {
  }

  // ---------- Requests in order ----------

  /** What is left when nothing happens but the look at the clock. */
  function Idle(s: Device, now: nat): Device {
    Dispatch(s, now, Other).device
  }

  /** A moment some time after a reading of the clock, which wraps. */
  predicate Past(reading: nat, time: nat, now: nat) {
    now >= (if reading + time <= UINT32_MAX then reading + time else (reading + time) % 0x1_0000_0000)
  }

  /**
   The look at the clock: a token whose timer runs is dropped, all of it, ten minutes after its last use or
   thirty seconds after its issue; any other token in use loses its presence. The epoch moves on exactly
   when that takes something away.
   */
  lemma ClockIs(s: Device, now: nat)
    ensures var (before, after) := (s.session, Idle(s, now).session);
            var (t, expires) := (before.token, before.token.initialLimit == 0 ||
                                 Past(before.token.usageTimer, 600000, now) ||
                                 Past(before.token.initialLimit, 30000, now));
            Dispatch(s, now, Other) == Outcome(s.(session := after), Ok) && after.ready == before.ready &&
            after.persistent == before.persistent &&
            after.token ==
              (if !t.inUse || t.usageTimer == 0 then t
               else if expires then Token(false, 0, None, false, false, 0, 0)
               else t.(userPresent := false)) &&
            (after.invalidations == before.invalidations <==> after.token == t) &&
            (after.invalidations == before.invalidations ==> after.epoch == before.epoch)
  {
  }

  /** A token that is dropped is dropped whole, and the epoch moves on exactly if any of it was active. */
  lemma StopIs(s: Session)
    ensures StopUsing(s).token == Token(false, 0, None, false, false, 0, 0)
    ensures StopUsing(s).persistent == s.persistent && StopUsing(s).ready == s.ready
    ensures StopUsing(s).invalidations == s.invalidations <==>
      s.token == Token(false, 0, None, false, false, s.token.initialLimit, s.token.usageTimer)
  {
  }

  /**
   A PIN command that only reports something: the first of a power-up sets the firmware up, which takes the
   token's rights, and no later one changes anything.
   */
  lemma InquiryIs(s: Device, now: nat)
    ensures var (r, before) := (Dispatch(s, now, Inquire), Idle(s, now));
            r.status == Ok && r.device.session.ready &&
            r.device == before.(session := r.device.session) &&
            if before.session.ready then r.device == before
            else
              r.device.session.token == before.session.token.(permissions := 0) &&
              r.device.session.persistent == before.session.persistent &&
              r.device.session.epoch != before.session.epoch
  {
    hide Tick;
  }

  /** Leaving the application moves the epoch on, and nothing else; power-up leaves flash and no token. */
  lemma EndsAre(s: Device, now: nat, image: map<nat, Cfg>, tries: nat)
    ensures var (t, before) := (Dispatch(s, now, Unload).device, Idle(s, now));
            Dispatch(s, now, Unload).status == Ok &&
            t.session.epoch != before.session.epoch && t.session.invalidations == before.session.invalidations + 1 &&
            t == before.(session := before.session.(epoch := t.session.epoch, invalidations := t.session.invalidations))
    ensures var t := PowerUp(image, tries);
            t.flash.vol == image && Coherent(t.flash) && t.mismatches == 0 && !t.needsPowerCycle && !t.session.ready &&
            t.session.persistent == 0 && t.session.token == Token(false, 0, None, false, false, 0, 0)
  {
    hide Tick;
    BootCoherent(image);
  }

  /** A command that is not a PIN command is performed as the look at the clock leaves things. */
  lemma AfterTheClock(s: Device, now: nat, c: Command)
    ensures c.SetMinPin? ==> Dispatch(s, now, c) == PerformSetMinPin(Idle(s, now), c)
    ensures c.SetComplexity? ==> Dispatch(s, now, c) == PerformSetComplexity(Idle(s, now), c)
    ensures c.UseToken? ==> Dispatch(s, now, c) == PerformUseToken(Idle(s, now), c)
    ensures c.TestPresence? ==> Dispatch(s, now, c) == PerformTestPresence(Idle(s, now), c)
    ensures Idle(s, now) == s.(session := Idle(s, now).session)
  {
    hide Tick, PerformSetMinPin, PerformSetComplexity, PerformUseToken, PerformTestPresence;
  }

  predicate Agrees(a: Agreement) {
    a.complete && (a.protocol == 1 || a.protocol == 2) && a.keysReadable && a.agreed
  }

  /** A new PIN that decrypts to a padded one, long enough and with the classes asked for. */
  predicate Acceptable(newPin: NewPin, files: map<nat, Cfg>) {
    newPin.decrypts && |newPin.padded| == PADDED_PIN && newPin.padded[PADDED_PIN - 1] == 0 &&
    var pin := PinBytes(newPin.padded);
    Codepoints(pin) >= MinPin(files) && HasClasses(pin, Complexity(files))
  }

  /** The PIN is offered while it may be tried, is the one on record, and every step around the comparison works. */
  predicate Proves(s: Device, offer: Offer) {
    var stored := StoredPin(s.flash.vol);
    stored.Some? && stored.value.retries > 0 && !s.needsPowerCycle && stored.value.pin == offer.pin &&
    offer.decrypts && offer.persisted.Durable? && (stored.value.legacy ==> offer.keyUnwraps)
  }

  // ---------- The PIN commands ----------

  /** A first PIN is set exactly when there is none and the request is in order; a refusal changes nothing. */
  lemma FirstPinIff(s: Device, now: nat, c: Command)
    requires c.SetPin?
    ensures var r := Dispatch(s, now, c);
            (r.status == Ok <==>
               StoredPin(s.flash.vol).None? && Agrees(c.agreement) && c.macValid &&
               Acceptable(c.newPin, s.flash.vol)) &&
            (r.status != Ok ==> r.device == Dispatch(s, now, Inquire).device) &&
            (r.status == Ok ==>
               r.device.mismatches == 0 && !r.device.needsPowerCycle && r.device.failures == 0 &&
               StoredMin(r.device.flash.vol) == StoredMin(s.flash.vol) &&
               r.device.session == Dispatch(s, now, Inquire).device.session)
  {
    hide Tick, Initialize, PinBytes, Codepoints, MeetsPolicy, HasClasses;
    ClassesIff(PinBytes(c.newPin.padded), Complexity(s.flash.vol));
  }

  lemma VerifiedIff(s: Device, file: Cfg, offer: Offer)
    requires StoredPin(s.flash.vol) == Some(file) && file.retries > 0
    ensures var r := VerifyPin(s, file, offer);
            (r.status == Ok <==>
               file.pin == offer.pin && offer.decrypts && offer.persisted.Durable? &&
               (file.legacy ==> offer.keyUnwraps)) &&
            r.device.needsPowerCycle == (s.needsPowerCycle || r.status == PinAuthBlocked) &&
            (r.status == Ok ==>
               StoredPin(r.device.flash.vol) == Some(PinFile(MAX_PIN_RETRIES, file.length, false, file.pin)) &&
               r.device.mismatches == 0 && r.device.failures == 0)
  {
  }

  /**
   A change of PIN succeeds exactly when the current one is proved, the new one is acceptable and can be
   installed, and, when a change is forced, is another.
   */
  lemma ChangeIff(s: Device, now: nat, c: Command)
    requires c.ChangePin?
    ensures var files := s.flash.vol;
            Dispatch(s, now, c).status == Ok <==>
              Agrees(c.agreement) && c.hashWellSized && c.macValid && c.rewraps && Proves(s, c.offer) &&
              Acceptable(c.newPin, files) && !(ForceChange(files) && PinBytes(c.newPin.padded) == c.offer.pin)
  {
    hide Tick, Initialize, PinBytes, Codepoints, MeetsPolicy, HasClasses, VerifyPin;
    ClassesIff(PinBytes(c.newPin.padded), Complexity(s.flash.vol));
    var ticked := s.(session := Tick(s.session, now));
    var t := ticked.(session := Initialize(ticked.session));
    var stored := StoredPin(s.flash.vol);
    if stored.Some? && stored.value.retries > 0 {
      VerifiedIff(t, stored.value, c.offer);
      VerifyKeepsPin(t, stored.value, c.offer);
    }
  }

  /** A plain request names no rights; one with rights names some, all of them known, and the persistent one alone. */
  predicate Askable(c: Command)
    requires c.GetToken?
  {
    if c.withPermissions then
      c.permissions != 0 && c.permissions & 0x08 == 0 && (c.permissions & 0x40 != 0 ==> c.permissions == 0x40)
    else c.permissions == 0 && c.rpId.None?
  }

  /** A token is handed out exactly when the PIN is proved, no change is forced and the rights can be had. */
  lemma TokenIff(s: Device, now: nat, c: Command)
    requires c.GetToken?
    ensures var r := Dispatch(s, now, c);
            (r.status == Ok <==>
               Agrees(c.agreement) && Askable(c) && Proves(s, c.offer) && !ForceChange(s.flash.vol)) &&
            (r.status == Ok ==>
               !r.device.needsPowerCycle && r.device.mismatches == 0 &&
               StoredPin(r.device.flash.vol) ==
                 Some(PinFile(MAX_PIN_RETRIES, StoredPin(s.flash.vol).value.length, false, c.offer.pin))) &&
            (r.status != Ok ==> r.device.session == Dispatch(s, now, Inquire).device.session)
  {
    hide Tick, Initialize, VerifyPin, IssueToken;
    var ticked := s.(session := Tick(s.session, now));
    var t := ticked.(session := Initialize(ticked.session));
    var stored := StoredPin(s.flash.vol);
    if stored.Some? && stored.value.retries > 0 {
      VerifiedIff(t, stored.value, c.offer);
      VerifyKeepsPin(t, stored.value, c.offer);
    }
    PinCommandSession(t, c);
  }

  predicate HasRight(rights: bv8, right: bv8) {
    rights & right != 0
  }

  /** The low byte of what is asked for. */
  predicate AsksFor(permissions: bv64, right: bv8) {
    permissions & (right as bv64) != 0
  }

  /**
   A token asked for without rights may register and assert and nothing else; one asked for with rights
   has those of the low byte, bit for bit.
   */
  lemma IssuedRights(s: Device, now: nat, c: Command, right: bv8)
    requires c.GetToken? && Issues(s, Request(now, c))
    ensures var rights := Dispatch(s, now, c).device.session.token.permissions;
            if c.withPermissions then HasRight(rights, right) <==> AsksFor(c.permissions, right)
            else HasRight(rights, right) <==> HasRight(0x01, right) || HasRight(0x02, right)
  {
    hide Dispatch, Issues, Granted, HasRight, AsksFor;
    TokenTakesThePin(s, now, c);
    GrantedBits(c, right);
  }

  lemma GrantedBits(c: Command, right: bv8)
    requires c.GetToken?
    ensures if c.withPermissions then HasRight(Granted(c), right) <==> AsksFor(c.permissions, right)
            else HasRight(Granted(c), right) <==> HasRight(0x01, right) || HasRight(0x02, right)
  {
  }

  /** The persistent right is given by itself, and leaves the other token as it was. */
  lemma PersistentRight(s: Device, now: nat, c: Command)
    requires c.GetToken? && Dispatch(s, now, c).status == Ok && c.permissions & 0x40 != 0
    ensures var t := Dispatch(s, now, c).device.session;
            t.persistent == 0x40 && t.token == Dispatch(s, now, Inquire).device.session.token
  {
    hide Tick, Initialize, VerifyPin, BeginUsing, ResetToken, Granted;
    var ticked := s.(session := Tick(s.session, now));
    PinCommandSession(ticked.(session := Initialize(ticked.session)), c);
  }

  // ---------- Why a PIN command is refused ----------

  /** The first thing that is wrong with the request, in the order in which the firmware looks. */
  lemma FirstPinRefusal(s: Device, now: nat, c: Command)
    requires c.SetPin?
    ensures var a := c.agreement;
            Dispatch(s, now, c).status ==
              if !a.complete || a.protocol == 0 then MissingParameter
              else if a.protocol > 2 then InvalidParameter
              else if StoredPin(s.flash.vol).Some? then NotAllowed
              else if |c.newPin.padded| < 64 || |c.newPin.padded| % 16 != 0 || !Agrees(a) then InvalidParameter
              else if !c.macValid then PinAuthInvalid
              else if |c.newPin.padded| > 272 then InvalidParameter
              else if !c.newPin.decrypts then PinAuthInvalid
              else if Acceptable(c.newPin, s.flash.vol) then Ok else PinPolicyViolation
  {
    hide Tick, Initialize, PinBytes, Codepoints, MeetsPolicy, HasClasses;
    ClassesIff(PinBytes(c.newPin.padded), Complexity(s.flash.vol));
  }

  /** What is wrong before the current PIN is compared, if anything. */
  function BeforeTrying(s: Device, a: Agreement, wellSized: bool): Status {
    var stored := StoredPin(s.flash.vol);
    if stored.None? then PinNotSet
    else if stored.value.retries == 0 then PinBlocked
    else if !wellSized || !a.keysReadable then InvalidParameter
    else if s.needsPowerCycle then PinAuthBlocked
    else if !a.agreed then InvalidParameter
    else Ok
  }

  /** What the comparison of the current PIN says. */
  function Tried(s: Device, offer: Offer): Status {
    var stored := StoredPin(s.flash.vol);
    if stored.None? then PinNotSet
    else if !offer.persisted.Durable? then Processing
    else if !offer.decrypts then PinAuthInvalid
    else if stored.value.pin == offer.pin then
      if stored.value.legacy && !offer.keyUnwraps then PinInvalid else Ok
    else if stored.value.retries == 1 then PinBlocked
    else if s.mismatches + 1 >= 3 then PinAuthBlocked
    else PinInvalid
  }

  lemma TriedIs(s: Device, t: Device, offer: Offer)
    requires t == s.(session := t.session) && StoredPin(s.flash.vol).Some?
    requires StoredPin(s.flash.vol).value.retries > 0
    ensures VerifyPin(t, StoredPin(s.flash.vol).value, offer).status == Tried(s, offer)
  {
  }

  lemma ChangeRefusal(s: Device, now: nat, c: Command)
    requires c.ChangePin?
    ensures var a := c.agreement;
            var wellSized := |c.newPin.padded| >= 64 && |c.newPin.padded| <= 256 && |c.newPin.padded| % 16 == 0 &&
                             c.hashWellSized;
            Dispatch(s, now, c).status ==
              if !a.complete || a.protocol == 0 then MissingParameter
              else if a.protocol > 2 then InvalidParameter
              else if BeforeTrying(s, a, wellSized) != Ok then BeforeTrying(s, a, wellSized)
              else if !c.macValid then PinAuthInvalid
              else if Tried(s, c.offer) != Ok then Tried(s, c.offer)
              else if !c.newPin.decrypts then PinAuthInvalid
              else if !Acceptable(c.newPin, s.flash.vol) then PinPolicyViolation
              else if !c.rewraps then PinInvalid
              else if ForceChange(s.flash.vol) && PinBytes(c.newPin.padded) == c.offer.pin then PinPolicyViolation
              else Ok
  {
    hide Tick, Initialize, PinBytes, Codepoints, MeetsPolicy, HasClasses, VerifyPin, Tried;
    ClassesIff(PinBytes(c.newPin.padded), Complexity(s.flash.vol));
    var ticked := s.(session := Tick(s.session, now));
    var t := ticked.(session := Initialize(ticked.session));
    var stored := StoredPin(s.flash.vol);
    if stored.Some? && stored.value.retries > 0 {
      VerifiedIff(t, stored.value, c.offer);
      VerifyKeepsPin(t, stored.value, c.offer);
      TriedIs(s, t, c.offer);
    }
  }

  lemma TokenRefusal(s: Device, now: nat, c: Command)
    requires c.GetToken?
    ensures var a := c.agreement;
            Dispatch(s, now, c).status ==
              if !a.complete || a.protocol == 0 then MissingParameter
              else if a.protocol > 2 then InvalidParameter
              else if !Askable(c) then
                if !c.withPermissions || c.permissions == 0 then InvalidParameter else UnauthorizedPermission
              else if BeforeTrying(s, a, true) != Ok then BeforeTrying(s, a, true)
              else if Tried(s, c.offer) != Ok then Tried(s, c.offer)
              else if !ForceChange(s.flash.vol) then Ok
              else if c.withPermissions && c.permissions == 0x20 && c.rpId.None? then PinPolicyViolation
              else PinInvalid
  {
    hide Tick, Initialize, VerifyPin, IssueToken, Tried;
    var ticked := s.(session := Tick(s.session, now));
    var t := ticked.(session := Initialize(ticked.session));
    var stored := StoredPin(s.flash.vol);
    if stored.Some? && stored.value.retries > 0 {
      VerifiedIff(t, stored.value, c.offer);
      VerifyKeepsPin(t, stored.value, c.offer);
      TriedIs(s, t, c.offer);
    }
  }

  // ---------- What a refused attempt leaves ----------

  /** The request gets as far as the comparison of the current PIN. */
  predicate Tries(s: Device, c: Command)
    requires c.ChangePin? || c.GetToken?
  {
    var a := c.agreement;
    a.complete && (a.protocol == 1 || a.protocol == 2) &&
    if c.GetToken? then Askable(c) && BeforeTrying(s, a, true) == Ok
    else
      c.macValid &&
      BeforeTrying(s, a, WholeBlocks(c.newPin.padded) && |c.newPin.padded| <= 256 && c.hashWellSized) == Ok
  }

  /**
   What trying a PIN leaves: the try is taken before anything is compared, and given back by a match alone;
   a mismatch is counted, and the third in a row blocks until power-up.
   */
  lemma TryLeaves(s: Device, file: Cfg, offer: Offer)
    requires StoredPin(s.flash.vol) == Some(file) && file.retries > 0
    ensures var r := VerifyPin(s, file, offer);
            var missed := offer.persisted.Durable? && offer.decrypts && file.pin != offer.pin;
            (offer.persisted.WriteFails? ==> r.device == s) &&
            (!offer.persisted.WriteFails? ==>
               StoredPin(r.device.flash.vol) ==
                 Some(if r.status == Ok then PinFile(MAX_PIN_RETRIES, file.length, false, file.pin)
                      else file.(retries := file.retries - 1))) &&
            (missed ==> r.device.failures == s.failures + 1) &&
            (missed && file.retries > 1 ==>
               r.device.mismatches == s.mismatches + 1 &&
               (r.device.needsPowerCycle <==> s.needsPowerCycle || s.mismatches + 1 >= 3)) &&
            (!missed && r.status != Ok ==>
               r.device.mismatches == s.mismatches && r.device.failures == s.failures &&
               r.device.needsPowerCycle == s.needsPowerCycle)
  {
  }

  /** A refused change or token request leaves what trying the PIN left, and nothing if it did not get that far. */
  lemma RefusalLeaves(s: Device, now: nat, c: Command)
    requires (c.ChangePin? || c.GetToken?) && Dispatch(s, now, c).status != Ok
    ensures var (r, before) := (Dispatch(s, now, c), Dispatch(s, now, Inquire).device);
            if Tries(s, c) then
              StoredPin(s.flash.vol).Some? && StoredPin(s.flash.vol).value.retries > 0 &&
              r.device == VerifyPin(before, StoredPin(s.flash.vol).value, c.offer).device
            else r.device == before
  {
    hide Tick, Initialize, VerifyPin, NewPinStatus;
    var ticked := s.(session := Tick(s.session, now));
    var t := ticked.(session := Initialize(ticked.session));
    var stored := StoredPin(s.flash.vol);
    if stored.Some? && stored.value.retries > 0 {
      VerifyKeepsPin(t, stored.value, c.offer);
    }
  }

  // ---------- The minimum length and the classes ----------

  predicate MayConfigure(s: Device, macValid: bool) {
    macValid && HasRight(s.session.token.permissions, 0x20)
  }

  /**
   A minimum is set exactly by a token that may configure, when it is not below the one in force nor
   above the longest PIN, and a change is forced on a PIN only. A refusal changes nothing.
   */
  lemma MinimumIff(s: Device, now: nat, c: Command)
    requires c.SetMinPin?
    ensures var (r, before) := (Dispatch(s, now, c), Idle(s, now));
            (r.status == Ok <==>
               MayConfigure(before, c.macValid) &&
               (c.newMinimum != 0 ==> MinPin(s.flash.vol) <= c.newMinimum <= MAX_PIN_LENGTH) &&
               (c.force == Some(true) ==> StoredPin(s.flash.vol).Some?)) &&
            (r.status == PinAuthInvalid <==> !MayConfigure(before, c.macValid)) &&
            (r.status == PinNotSet ==> c.force == Some(true) && StoredPin(s.flash.vol).None?) &&
            (r.status == PinPolicyViolation ==> c.newMinimum > MAX_PIN_LENGTH || c.newMinimum < MinPin(s.flash.vol)) &&
            r.status in {Ok, PinAuthInvalid, PinNotSet, PinPolicyViolation} &&
            (r.status != Ok ==> r.device == before)
  {
    hide Dispatch, StoredPin, MinPin, Write, ResetToken, ResetPersistentToken;
    AfterTheClock(s, now, c);
  }

  /**
   It forces a change exactly when asked to or when the PIN has become too short, and takes all tokens'
   rights when it does or was asked either way. The parties are those sent, and the PIN stays.
   */
  lemma MinimumLeaves(s: Device, now: nat, c: Command)
    requires c.SetMinPin? && Dispatch(s, now, c).status == Ok
    ensures var (t, before) := (Dispatch(s, now, c).device, Idle(s, now));
            var (files, stored) := (t.flash.vol, StoredPin(s.flash.vol));
            var minimum := if c.newMinimum == 0 then MinPin(s.flash.vol) else c.newMinimum;
            var short := stored.Some? && stored.value.length < minimum;
            MinPin(files) == minimum && StoredMin(files).Some? && StoredMin(files).value.rpIds == c.rpIds &&
            (ForceChange(files) <==> short || c.force == Some(true)) && StoredPin(files) == stored &&
            Complexity(files) == (if c.pinPolicy == Some(true) then 0 else Complexity(s.flash.vol)) &&
            if short || c.force.Some? then t.session.token.permissions == 0 && t.session.persistent == 0
            else t.session == before.session
  {
    hide Dispatch;
    AfterTheClock(s, now, c);
  }

  lemma ComplexityIff(s: Device, now: nat, c: Command)
    requires c.SetComplexity?
    ensures var (r, before) := (Dispatch(s, now, c), Idle(s, now));
            (r.status == Ok <==> MayConfigure(before, c.macValid)) &&
            (r.status != Ok ==> r.status == PinAuthInvalid && r.device == before) &&
            (r.status == Ok ==>
               var files := r.device.flash.vol;
               Complexity(files) == c.policy && StoredPin(files) == StoredPin(s.flash.vol) &&
               StoredMin(files) == StoredMin(s.flash.vol) && r.device.session == before.session)
  {
    hide Dispatch;
    AfterTheClock(s, now, c);
  }

  // ---------- Using a token ----------

  lemma AuthorizesIff(token: Token, permission: bv8, rp: Bytes)
    ensures Authorizes(token, permission, rp) <==>
      HasRight(token.permissions, permission) && token.userVerified && (token.rpId.Some? ==> token.rpId.value == rp)
  {
    hide HasRight;
    HasRightIs(token.permissions, permission);
  }

  lemma HasRightIs(rights: bv8, right: bv8)
    ensures HasRight(rights, right) <==> rights & right != 0
  {
  }

  lemma UseTokenIs(s: Device, c: Command)
    requires c.UseToken?
    ensures var (r, token) := (PerformUseToken(s, c), s.session.token);
            (r.status == Ok <==>
               c.macValid && token.inUse && token.userVerified && HasRight(token.permissions, c.permission) &&
               (token.rpId.Some? ==> token.rpId.value == c.rp)) &&
            (r.status == Ok ==> r.device == s.(session := s.session.(token := token.(rpId := Some(c.rp))))) &&
            (r.status != Ok ==>
               r.status == PinAuthInvalid &&
               var read := token.(userVerified := token.userVerified && (token.inUse || !c.macValid));
               r.device == s.(session := s.session.(token := read)))
  {
    hide Authorizes, HasRight;
    AuthorizesIff(ReadUserVerified(s.session).token, c.permission, c.rp);
  }

  /**
   A request is authorized exactly by a token in use that has the right and a verified user and is bound
   to no other party. That binds it to the party, and nothing else changes.
   */
  lemma AuthorizedIff(s: Device, now: nat, c: Command)
    requires c.UseToken?
    ensures var (r, token) := (Dispatch(s, now, c), Idle(s, now).session.token);
            (r.status == Ok <==>
               c.macValid && token.inUse && token.userVerified && HasRight(token.permissions, c.permission) &&
               (token.rpId.Some? ==> token.rpId.value == c.rp)) &&
            (r.status == Ok ==>
               r.device == Idle(s, now).(session := Idle(s, now).session.(token := token.(rpId := Some(c.rp))))) &&
            (r.status != Ok ==>
               r.status == PinAuthInvalid &&
               var read := token.(userVerified := token.userVerified && (token.inUse || !c.macValid));
               r.device == Idle(s, now).(session := Idle(s, now).session.(token := read)))
  {
    hide Dispatch, PerformUseToken, HasRight;
    AfterTheClock(s, now, c);
    UseTokenIs(Idle(s, now), c);
  }

  /**
   Presence is granted without a touch where none is asked for: where the option says no in an assertion,
   in a registration that is not authorized, and by a token that remembers one.
   */
  lemma PresenceIff(s: Device, now: nat, c: Command)
    requires c.TestPresence?
    ensures var (r, token) := (Dispatch(s, now, c), Idle(s, now).session.token);
            (r.status == Ok <==>
               if c.up == Some(false) then c.ceremony.Assertion?
               else
                 c.touched ||
                 (if c.authenticated then token.inUse && token.userPresent else c.ceremony.Registration?)) &&
            (r.status == InvalidOption <==> c.up == Some(false) && c.ceremony.Registration?) &&
            r.status in {Ok, InvalidOption, OperationDenied} &&
            r.device.flash == s.flash
  {
    hide Tick, ConsumePresence;
  }

  /** The session is `before` with this token, and the epoch moved on exactly if that is another token. */
  predicate Becomes(before: Session, after: Session, token: Token) {
    after.token == token && after.ready == before.ready && after.persistent == before.persistent &&
    after.invalidations >= before.invalidations &&
    (after.invalidations == before.invalidations <==> token == before.token) &&
    (after.invalidations == before.invalidations ==> after.epoch == before.epoch)
  }

  lemma ClearedAre(s: Session)
    requires s.token.inUse
    ensures Becomes(s, ClearUserPresent(s), s.token.(userPresent := false))
    ensures Becomes(s, ClearUserVerified(s), s.token.(userVerified := false))
    ensures Becomes(s, ClearPermissionsExceptLbw(s), s.token.(permissions := 0x10))
  {
  }

  /** Consent used up, of a token in use or not. */
  lemma ConsumedIs(s: Session)
    ensures Becomes(s, ConsumePresence(s),
      if s.token.inUse then s.token.(userPresent := false, userVerified := false, permissions := 0x10) else s.token)
  {
    if s.token.inUse {
      hide ClearUserPresent, ClearUserVerified, ClearPermissionsExceptLbw;
      ClearedAre(s);
      ClearedAre(ClearUserPresent(s));
      ClearedAre(ClearUserVerified(ClearUserPresent(s)));
    }
  }

  lemma PresenceOn(s: Device, c: Command)
    requires c.TestPresence?
    ensures var (r, token) := (PerformTestPresence(s, c), s.session.token);
            var read := if c.authenticated && c.up != Some(false) && !token.inUse
                        then token.(userPresent := false) else token;
            var taken := r.status == Ok && read.inUse &&
                         (c.up == Some(true) || (c.ceremony.Assertion? && c.up != Some(false)));
            r.device == s.(session := r.device.session) && r.device.session.persistent == s.session.persistent &&
            r.device.session.token ==
              (if taken then read.(userPresent := false, userVerified := false, permissions := 0x10) else read) &&
            (r.device.session.invalidations == s.session.invalidations <==> r.device.session.token == read) &&
            (r.device.session.invalidations == s.session.invalidations ==>
               r.device.session.epoch == s.session.epoch)
  {
    hide ConsumePresence, Invalidate;
    ConsumedIs(s.session);
    ConsumedIs(ReadUserPresent(s.session));
  }

  /**
   What a presence test leaves of the token. One not in use does not remember a touch. Granted to an assertion
   that did not decline it, or asked for by name, it takes from a token in use the touch, the verified user
   and all rights but blob writing, and moves the epoch on exactly when it took something.
   */
  lemma PresenceLeaves(s: Device, now: nat, c: Command)
    requires c.TestPresence?
    ensures var (r, before) := (Dispatch(s, now, c), Idle(s, now).session);
            var read := if c.authenticated && c.up != Some(false) && !before.token.inUse
                        then before.token.(userPresent := false) else before.token;
            var taken := r.status == Ok && read.inUse &&
                         (c.up == Some(true) || (c.ceremony.Assertion? && c.up != Some(false)));
            r.device.session.token ==
              (if taken then read.(userPresent := false, userVerified := false, permissions := 0x10) else read) &&
            r.device.session.persistent == before.persistent &&
            (r.device.session.invalidations == before.invalidations <==> r.device.session.token == read) &&
            (r.device.session.invalidations == before.invalidations ==> r.device.session.epoch == before.epoch)
  {
    hide Dispatch, PerformTestPresence;
    AfterTheClock(s, now, c);
    PresenceOn(Idle(s, now), c);
  }
}
