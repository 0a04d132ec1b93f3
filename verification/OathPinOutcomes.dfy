/** What each command of the OATH application's PIN and access code takes to succeed, and what it leaves. */
module OathPinOutcomes {
  import opened Basics
  import opened Flash
  import Oath
  import opened OathPin

  /**
   The PIN is tried, with a try left, and is the one on record; an empty one never matches a record of the
   old format.
   */
  predicate Proves(s: Device, pin: Option<Bytes>, persisted: Persisted) {
    var stored := Stored(s);
    stored.Some? && pin.Some? && stored.value.retries > 0 && persisted.Durable? && stored.value.pin == pin.value &&
    (stored.value.legacy ==> pin.value != [])
  }

  predicate OnRecord(s: Device, pin: Bytes) {
    Stored(s) == Some(PinRecord(MAX_OTP_COUNTER, false, pin))
  }

  /** Everything but the PIN record, the try counter in it and its history is as it was. */
  predicate OnlyPinDiffers(s: Device, t: Device) {
    t.selected == s.selected && t.challenge == s.challenge && (HasCode(t) <==> HasCode(s)) &&
    (HasCode(s) ==> t.flash.vol[EF_OATH_CODE] == s.flash.vol[EF_OATH_CODE])
  }

  /** A first PIN is set exactly by someone admitted, where there is none. */
  lemma FirstPinIff(crypto: Crypto, s: Device, c: Command)
    requires c.SetPin?
    ensures var r := Perform(crypto, s, c);
            (r.status == Ok <==> Admits(s) && !HasPin(s) && c.pin.Some? && c.writes) &&
            (r.status == Ok ==>
               OnRecord(r.device, c.pin.value) && OnlyPinDiffers(s, r.device) && r.device.validated == s.validated) &&
            (r.status != Ok ==> r.device == s)
  {
  }

  /** A PIN is verified exactly when it is proved; that admits, and restores its tries. */
  lemma VerifiedIff(crypto: Crypto, s: Device, c: Command)
    requires c.VerifyPin?
    ensures var r := Perform(crypto, s, c);
            (r.status == Ok <==> s.selected && Proves(s, c.pin, c.persisted) && c.writes) &&
            (r.status == Ok ==> OnRecord(r.device, c.pin.value) && Admits(r.device)) &&
            OnlyPinDiffers(s, r.device) && (r.device.validated ==> s.validated || r.status == Ok)
  {
  }

  /** A change takes the current PIN and leaves the new one on record, with all its tries; it admits nobody. */
  lemma ChangedIff(crypto: Crypto, s: Device, c: Command)
    requires c.ChangePin?
    ensures var r := Perform(crypto, s, c);
            (r.status == Ok <==> s.selected && c.newPin.Some? && Proves(s, c.pin, c.persisted) && c.writes) &&
            (r.status == Ok ==> OnRecord(r.device, c.newPin.value)) &&
            OnlyPinDiffers(s, r.device) && r.device.validated == s.validated
  {
  }

  /** Whatever goes wrong once the counter could be lowered costs a try, and nothing else does. */
  lemma FailureCosts(crypto: Crypto, s: Device, c: Command)
    requires c.ChangePin? || c.VerifyPin?
    ensures var r := Perform(crypto, s, c);
            r.status != Ok ==>
              Stored(r.device) ==
                if s.selected && Stored(s).Some? && c.pin.Some? && (c.ChangePin? ==> c.newPin.Some?) &&
                   Stored(s).value.retries > 0 && !c.persisted.WriteFails?
                then Some(Stored(s).value.(retries := Stored(s).value.retries - 1)) else Stored(s)
  {
  }

  /** A PIN that is tried and does not match costs a try and, on verification, whatever admission there was. */
  lemma WrongPinCosts(crypto: Crypto, s: Device, c: Command)
    requires (c.ChangePin? && c.newPin.Some?) || c.VerifyPin?
    requires s.selected && Stored(s).Some? && c.pin.Some? && c.persisted.Durable? && !Proves(s, c.pin, c.persisted)
    ensures var (r, stored) := (Perform(crypto, s, c), Stored(s).value);
            r.status == NotSatisfied && (c.VerifyPin? ==> !r.device.validated) &&
            Stored(r.device) ==
              Some(if stored.retries == 0 then stored else stored.(retries := stored.retries - 1))
  {
  }

  /** A new PIN opens the application afterwards, and any other does not. */
  lemma ChangedPinCounts(crypto: Crypto, s: Device, c: Command, pin: Bytes)
    requires (c.ChangePin? || c.SetPin?) && Perform(crypto, s, c).status == Ok
    ensures var t := Perform(crypto, s, c).device;
            var installed := if c.ChangePin? then c.newPin.value else c.pin.value;
            Perform(crypto, t, VerifyPin(Some(pin), Durable, true)).status == Ok <==> pin == installed
  {
    hide Perform;
    if c.ChangePin? {
      ChangedIff(crypto, s, c);
    } else {
      FirstPinIff(crypto, s, c);
    }
    var t := Perform(crypto, s, c).device;
    VerifiedIff(crypto, t, VerifyPin(Some(pin), Durable, true));
  }

  /** The first thing that is wrong with a PIN command, in the order in which the application looks. */
  lemma PinRefusal(crypto: Crypto, s: Device, c: Command)
    requires c.SetPin? || c.ChangePin? || c.VerifyPin?
    ensures Perform(crypto, s, c).status ==
              if !s.selected then NotSelected
              else if c.SetPin? && !s.validated then NotSatisfied
              else if if c.SetPin? then HasPin(s) else Stored(s).None? then ConditionsNotSatisfied
              else if c.pin.None? || (c.ChangePin? && c.newPin.None?) then IncorrectParams
              else if !c.SetPin? && Stored(s).value.retries > 0 && !c.persisted.Durable? then MemoryFailure
              else if !c.SetPin? && !Proves(s, c.pin, c.persisted) then NotSatisfied
              else if c.writes then Ok else MemoryFailure
  {
  }

  // ---------- The access code ----------

  predicate ErasesCode(c: Command)
    requires c.SetCode?
  {
    c.empty || c.key == Some([])
  }

  /** A code is set exactly by someone admitted who proves to know it; an empty one takes the code off. */
  lemma CodeSetIff(crypto: Crypto, s: Device, c: Command)
    requires c.SetCode?
    ensures var r := Perform(crypto, s, c);
            (r.status == Ok <==>
               Admits(s) &&
               (ErasesCode(c) ||
                (c.key.Some? && 2 <= |c.key.value| <= ACCESS_CODE_MAX && Oath.KnownHash(c.key.value) &&
                 c.question.Some? && c.answer == Some(crypto.mac(c.key.value, c.question.value)) && c.writes))) &&
            (r.status == Ok ==>
               (HasCode(r.device) <==> !ErasesCode(c)) && (r.device.validated <==> ErasesCode(c)) &&
               (!ErasesCode(c) ==> r.device.challenge == c.renewed)) &&
            (r.status != Ok ==> r.device == if r.status == ExecError then s.(challenge := c.renewed) else s) &&
            r.device.selected == s.selected && Stored(r.device) == Stored(s)
  {
    hide Oath.KnownHash, Oath.LooksSealed;
  }

  /** A reset needs nothing but its confirmation, and leaves neither PIN nor code. */
  lemma ResetIff(crypto: Crypto, s: Device, c: Command)
    requires c.Reset?
    ensures var r := Perform(crypto, s, c);
            (r.status == Ok <==> s.selected && c.confirmed) &&
            (r.status == Ok ==> !HasPin(r.device) && !HasCode(r.device) && Admits(r.device)) &&
            (r.status != Ok ==> r.device == s)
  {
  }

  /** Selecting admits exactly where there is neither PIN nor code, and a code is sealed and challenged from then on. */
  lemma SelectedIs(crypto: Crypto, s: Device, challenge: Value, migrates: bool)
    ensures var t := Selected(crypto, s, challenge, migrates);
            (t.validated <==> !HasPin(s) && !HasCode(s)) && (t.selected <==> s.selected || migrates) &&
            Stored(t) == Stored(s) && (HasCode(t) <==> HasCode(s)) &&
            (migrates && HasCode(s) ==> t.challenge == challenge) &&
            (migrates && HasCode(s) && s.flash.vol[EF_OATH_CODE].Raw? && Oath.Sound(crypto.box) &&
             s.flash.vol[EF_OATH_CODE].data != [] ==>
               var file := t.flash.vol[EF_OATH_CODE];
               file.Raw? && Oath.LooksSealed(file.data) &&
               (!Oath.LooksSealed(s.flash.vol[EF_OATH_CODE].data) ==>
                  Oath.OpenKey(crypto.box, file.data) == Some(s.flash.vol[EF_OATH_CODE].data)))
  {
    hide Oath.LooksSealed;
  }

  /** The code on record opens to a key that can be used. */
  predicate Usable(crypto: Crypto, s: Device) {
    HasCode(s) && OpenCode(crypto, s).Some? &&
    var key := OpenCode(crypto, s).value;
    2 <= |key| <= ACCESS_CODE_MAX && Oath.KnownHash(key)
  }

  /**
   A code is validated exactly by the keyed hash of the last challenge under it, and answered with that of
   the client's own; where there is no code, whatever is sent opens the application and is called invalid.
   */
  lemma ValidatedIff(crypto: Crypto, s: Device, c: Command)
    requires c.Validate?
    ensures var r := Perform(crypto, s, c);
            var sent := s.selected && c.question.Some? && c.answer.Some?;
            (r.status == Ok <==>
               sent && Usable(crypto, s) && c.answer == Some(crypto.mac(OpenCode(crypto, s).value, s.challenge))) &&
            r.proof ==
              (if r.status == Ok then Some(crypto.mac(OpenCode(crypto, s).value, c.question.value)) else None) &&
            r.device == s.(validated := s.validated || r.status == Ok || (sent && !HasCode(s))) &&
            (r.status == DataInvalid <==> sent && r.status != Ok && (!HasCode(s) || Usable(crypto, s)))
  {
    hide Oath.KnownHash, Oath.LooksSealed;
  }

  /** The first thing that is wrong with a command about the code, in the order in which the application looks. */
  lemma CodeRefusal(crypto: Crypto, s: Device, c: Command)
    requires c.SetCode? || c.Validate? || c.Reset?
    ensures var status := Perform(crypto, s, c).status;
            status != Ok ==>
              if !s.selected then status == NotSelected
              else if c.Reset? then status == IncorrectP1P2
              else if c.Validate? then
                if c.question.None? || c.answer.None? then status == IncorrectParams
                else if Usable(crypto, s) || !HasCode(s) then status == DataInvalid
                else if OpenCode(crypto, s).None? then status == ExecError
                else if 2 <= |OpenCode(crypto, s).value| <= ACCESS_CODE_MAX then status == IncorrectParams
                else status == WrongData
              else if !s.validated then status == NotSatisfied
              else if c.key.None? then status == IncorrectParams
              else if |c.key.value| < 2 || |c.key.value| > ACCESS_CODE_MAX then status == WrongData
              else if c.question.None? || c.answer.None? || !Oath.KnownHash(c.key.value) then status == IncorrectParams
              else if c.answer.value != crypto.mac(c.key.value, c.question.value) then status == DataInvalid
              else status == ExecError
  {
    hide Oath.KnownHash, Oath.LooksSealed;
  }
}
