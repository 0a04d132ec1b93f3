/**
 The PIN and token procedures as the firmware runs them, on its globals and its two files.
 Each one does to the state what its specification says.
 */
module ClientPinDevice {
  import opened Basics
  import opened Flash
  import opened ClientPin

  // ---------- PIN text ----------

  /** Counts the bytes before the first zero. */
  method ByteLength(padded: Bytes) returns (n: nat)
    ensures n <= |padded| && padded[..n] == PinBytes(padded)
  {
    n := 0;
    while n < |padded| && padded[n] != 0
      invariant n <= |padded|
      invariant forall j :: 0 <= j < n ==> padded[j] != 0
    {
      n := n + 1;
    }
    FirstZero(padded, n);
  }

  lemma {:induction false} FirstZero(padded: Bytes, n: nat)
    requires n <= |padded| && (n < |padded| ==> padded[n] == 0)
    requires forall j :: 0 <= j < n ==> padded[j] != 0
    ensures PinBytes(padded) == padded[..n]
    decreases n
  {
    if n > 0 {
      FirstZero(padded[1..], n - 1);
    }
  }

  method CodepointLength(pin: Bytes) returns (count: nat)
    ensures count == Codepoints(pin)
  {
    count := 0;
    for i := 0 to |pin|
      invariant count == Codepoints(pin[..i])
    {
      assert pin[..i + 1][..i] == pin[..i];
      if StartsCodepoint(pin[i]) {
        count := count + 1;
      }
    }
    assert pin[..|pin|] == pin;
  }

  method PolicyPass(pin: Bytes, policy: bv16) returns (ok: bool)
    ensures ok == MeetsPolicy(pin, policy)
  {
    if policy == 0 {
      return true;
    }
    var upper, lower, digit, symbol := false, false, false, false;
    for i := 0 to |pin|
      invariant upper <==> exists j :: 0 <= j < i && IsUpper(pin[j])
      invariant lower <==> exists j :: 0 <= j < i && IsLower(pin[j])
      invariant digit <==> exists j :: 0 <= j < i && IsDigit(pin[j])
      invariant symbol <==> exists j :: 0 <= j < i && IsSymbol(pin[j])
    {
      if 0x41 <= pin[i] <= 0x5A {
        upper := true;
      } else if 0x61 <= pin[i] <= 0x7A {
        lower := true;
      } else if 0x30 <= pin[i] <= 0x39 {
        digit := true;
      } else {
        symbol := true;
      }
    }
    if policy & POLICY_UPPER != 0 && !upper {
      return false;
    }
    if policy & POLICY_LOWER != 0 && !lower {
      return false;
    }
    if policy & POLICY_DIGIT != 0 && !digit {
      return false;
    }
    ok := !(policy & POLICY_SYMBOL != 0 && !symbol);
  }

  method CheckNewPin(newPin: NewPin, minimum: nat, policy: bv16) returns (status: Status, pin: Bytes)
    ensures status == NewPinStatus(newPin, minimum, policy)
    ensures status == Ok ==> pin == PinBytes(newPin.padded)
  {
    pin := [];
    if !newPin.decrypts {
      return PinAuthInvalid, pin;
    }
    if |newPin.padded| > PADDED_PIN || |newPin.padded| < PADDED_PIN || newPin.padded[PADDED_PIN - 1] != 0 {
      return PinPolicyViolation, pin;
    }
    var length := ByteLength(newPin.padded);
    pin := newPin.padded[..length];
    var codepoints := CodepointLength(pin);
    if codepoints < minimum {
      return PinPolicyViolation, pin;
    }
    var passes := PolicyPass(pin, policy);
    status := if passes then Ok else PinPolicyViolation;
  }

  lemma BoundTo(token: Token, permission: bv8, rp: Bytes)
    requires Authorizes(token, permission, rp)
    ensures token.rpId.Some? ==> token.(rpId := Some(rp)) == token
  {
  }

  class Authenticator {
    var files: map<nat, Cfg>
    ghost var flash: State<Cfg>
    var ready: bool
    var paut: Token
    var ppaut: bv8
    var epoch: nat
    var mismatches: nat
    var needsPowerCycle: bool
    ghost var invalidations: nat
    ghost var tries: nat
    ghost var failures: nat

    ghost predicate Valid()
      reads this
    {
      flash.vol == files && epoch <= UINT32_MAX
    }

    ghost function Rights(): Session
      reads this
    {
      Session(ready, paut, ppaut, epoch, invalidations)
    }

    ghost function Now(): Device
      reads this
    {
      Device(flash, Rights(), mismatches, needsPowerCycle, tries, failures)
    }

    constructor (image: map<nat, Cfg>)
      ensures Valid() && Now() == PowerUp(image, 0)
    {
      files, flash := image, Boot(image);
      ready, paut, ppaut := false, NO_TOKEN, 0;
      epoch, invalidations := NextEpoch(1), 1;
      mismatches, needsPowerCycle := 0, false;
      tries, failures := 0, 0;
    }

    // ---------- Files ----------

    method PutFile(fid: nat, file: Cfg)
      requires Valid()
      modifies this`files, this`flash
      ensures Valid() && Now() == Write(old(Now()), fid, file)
    {
      files := files[fid := file];
      flash := Step(flash, Put(fid, file));
    }

    method CommitSync()
      requires Valid()
      modifies this`flash
      ensures Valid() && Now() == old(Now()).(flash := Step(old(flash), Sync))
    {
      flash := Step(flash, Sync);
    }

    // ---------- Token ----------

    method InvalidateEpoch()
      requires Valid()
      modifies this`epoch, this`invalidations
      ensures Valid() && Rights() == Invalidate(old(Rights()))
    {
      epoch := (epoch + 1) % (UINT32_MAX + 1);
      if epoch == 0 {
        epoch := 1;
      }
      invalidations := invalidations + 1;
    }

    method ResetAuthToken()
      requires Valid()
      modifies this`paut, this`epoch, this`invalidations
      ensures Valid() && Rights() == ResetToken(old(Rights()))
    {
      paut := paut.(permissions := 0);
      InvalidateEpoch();
    }

    method ResetPersistent()
      requires Valid()
      modifies this`ppaut, this`epoch, this`invalidations
      ensures Valid() && Rights() == ResetPersistentToken(old(Rights()))
    {
      ppaut := 0;
      InvalidateEpoch();
    }

    method BeginUsingToken(initial: nat, usage: nat)
      requires Valid()
      modifies this`paut, this`epoch, this`invalidations
      ensures Valid() && Rights() == BeginUsing(old(Rights()), initial, usage)
    {
      paut := paut.(userPresent := false, userVerified := true);
      paut := paut.(initialLimit := initial);
      paut := paut.(usageTimer := usage);
      paut := paut.(inUse := true);
      InvalidateEpoch();
    }

    method ClearPresentFlag()
      requires Valid()
      modifies this`paut, this`epoch, this`invalidations
      ensures Valid() && Rights() == ClearUserPresent(old(Rights()))
    {
      if paut.inUse && paut.userPresent {
        paut := paut.(userPresent := false);
        InvalidateEpoch();
      }
    }

    method ClearVerifiedFlag()
      requires Valid()
      modifies this`paut, this`epoch, this`invalidations
      ensures Valid() && Rights() == ClearUserVerified(old(Rights()))
    {
      if paut.inUse && paut.userVerified {
        paut := paut.(userVerified := false);
        InvalidateEpoch();
      }
    }

    method ClearExceptLbw()
      requires Valid()
      modifies this`paut, this`epoch, this`invalidations
      ensures Valid() && Rights() == ClearPermissionsExceptLbw(old(Rights()))
    {
      if paut.inUse && paut.permissions != PERMISSION_LBW {
        paut := paut.(permissions := PERMISSION_LBW);
        InvalidateEpoch();
      }
    }

    method StopUsingToken()
      requires Valid()
      modifies this`paut, this`epoch, this`invalidations
      ensures Valid() && Rights() == StopUsing(old(Rights()))
    {
      var active := paut.inUse || paut.permissions != 0 || paut.rpId.Some? || paut.userPresent || paut.userVerified;
      paut := paut.(permissions := 0, usageTimer := 0, inUse := false);
      paut := paut.(rpId := None, initialLimit := 0);
      paut := paut.(userPresent := false, userVerified := false);
      if active {
        InvalidateEpoch();
      }
    }

    method TickToken(now: nat)
      requires Valid()
      modifies this`paut, this`epoch, this`invalidations
      ensures Valid() && Rights() == Tick(old(Rights()), now)
    {
      if paut.usageTimer == 0 {
        return;
      }
      if paut.inUse &&
         (Add32(paut.usageTimer, MAX_USAGE_TIME) <= now ||
          paut.initialLimit == 0 ||
          Add32(paut.initialLimit, TRANSPORT_TIME_LIMIT) <= now) {
        StopUsingToken();
        return;
      }
      ClearPresentFlag();
    }

    method FirstUse()
      requires Valid()
      modifies this`ready, this`paut, this`epoch, this`invalidations
      ensures Valid() && Rights() == Initialize(old(Rights()))
    {
      if !ready {
        ResetAuthToken();
        ready := true;
      }
    }

    method ReadPresentFlag() returns (present: bool)
      requires Valid()
      modifies this`paut
      ensures Valid() && Rights() == ReadUserPresent(old(Rights())) && present == paut.userPresent
    {
      if !paut.inUse {
        paut := paut.(userPresent := false);
      }
      present := paut.userPresent;
    }

    method UsePresence()
      requires Valid()
      modifies this`paut, this`epoch, this`invalidations
      ensures Valid() && Rights() == ConsumePresence(old(Rights()))
    {
      ClearPresentFlag();
      ClearVerifiedFlag();
      ClearExceptLbw();
    }

    /** The presence step of a registration or an assertion. */
    method TestUserPresence(c: Command) returns (status: Status)
      requires Valid() && c.TestPresence?
      modifies this`paut, this`epoch, this`invalidations
      ensures Valid()
      ensures var r := PerformTestPresence(old(Now()), c); Now() == r.device && status == r.status
    {
      if c.ceremony.Registration? && c.up == Some(false) {
        return InvalidOption;
      }
      if c.up != Some(false) {
        var asks := c.ceremony.Assertion?;
        if c.authenticated {
          var present := ReadPresentFlag();
          asks := !present;
        }
        if asks && !c.touched {
          return OperationDenied;
        }
        if c.ceremony.Assertion? || c.up == Some(true) {
          UsePresence();
        }
      }
      status := Ok;
    }

    // ---------- PIN ----------

    /** Lowers the retry counter and waits for it to reach flash; compares; on a match restores it. */
    method Verify(offer: Offer) returns (status: Status)
      requires Valid()
      requires StoredPin(files).Some? && StoredPin(files).value.retries > 0
      modifies this`files, this`flash, this`mismatches, this`needsPowerCycle, this`tries, this`failures
      ensures Valid()
      ensures var r := VerifyPin(old(Now()), StoredPin(old(files)).value, offer);
              Now() == r.device && status == r.status
    {
      var pinData := files[EF_PIN];
      pinData := pinData.(retries := pinData.retries - 1);
      if offer.persisted.WriteFails? {
        return Processing;
      }
      PutFile(EF_PIN, pinData);
      if offer.persisted.CommitTimesOut? {
        return Processing;
      }
      CommitSync();
      if !offer.decrypts {
        return PinAuthInvalid;
      }
      tries := tries + 1;
      if offer.pin != pinData.pin {
        failures := failures + 1;
        if pinData.retries == 0 {
          return PinBlocked;
        }
        mismatches := mismatches + 1;
        if mismatches >= 3 {
          needsPowerCycle := true;
          return PinAuthBlocked;
        }
        return PinInvalid;
      }
      if pinData.legacy {
        pinData := pinData.(legacy := false);
        if !offer.keyUnwraps {
          return PinInvalid;
        }
      }
      pinData := pinData.(retries := MAX_PIN_RETRIES);
      PutFile(EF_PIN, pinData);
      mismatches, tries, failures := 0, 0, 0;
      status := Ok;
    }

    method SetNewPin(c: Command) returns (status: Status)
      requires Valid() && c.SetPin?
      modifies this`files, this`flash, this`mismatches, this`needsPowerCycle, this`tries, this`failures
      ensures Valid()
      ensures var r := PerformSetPin(old(Now()), c); Now() == r.device && status == r.status
    {
      hide NewPinStatus, PinBytes, Codepoints;
      if !c.agreement.complete || c.agreement.protocol == 0 {
        return MissingParameter;
      }
      if c.agreement.protocol != 1 && c.agreement.protocol != 2 {
        return InvalidParameter;
      }
      if StoredPin(files).Some? {
        return NotAllowed;
      }
      if |c.newPin.padded| < 64 || |c.newPin.padded| % 16 != 0 || !c.agreement.keysReadable || !c.agreement.agreed {
        return InvalidParameter;
      }
      if !c.macValid {
        return PinAuthInvalid;
      }
      if |c.newPin.padded| > 272 {
        return InvalidParameter;
      }
      var pin;
      status, pin := CheckNewPin(c.newPin, MinPin(files), Complexity(files));
      if status != Ok {
        return;
      }
      var codepoints := CodepointLength(pin);
      PutFile(EF_PIN, PinFile(MAX_PIN_RETRIES, codepoints, false, pin));
      mismatches, tries, failures := 0, 0, 0;
      needsPowerCycle := false;
    }

    /** Looks at the stored PIN and the request before anything is compared. */
    method Precheck(agreement: Agreement, wellSized: bool) returns (status: Status)
      requires Valid()
      ensures status == BeforeVerify(Now(), agreement, wellSized)
      ensures status == Ok ==> StoredPin(files).Some? && StoredPin(files).value.retries > 0
    {
      if StoredPin(files).None? {
        return PinNotSet;
      }
      if files[EF_PIN].retries == 0 {
        return PinBlocked;
      }
      if !wellSized || !agreement.keysReadable {
        return InvalidParameter;
      }
      if needsPowerCycle {
        return PinAuthBlocked;
      }
      status := if agreement.agreed then Ok else InvalidParameter;
    }

    method Install(pin: Bytes) returns (status: Status)
      requires Valid()
      modifies this
      ensures Valid()
      ensures var r := InstallPin(old(Now()), pin); Now() == r.device && status == r.status
    {
      var forced := ForceChange(files);
      if forced && StoredPin(files).Some? && files[EF_PIN].pin == pin {
        return PinPolicyViolation;
      }
      var codepoints := CodepointLength(pin);
      PutFile(EF_PIN, PinFile(MAX_PIN_RETRIES, codepoints, false, pin));
      if forced {
        PutFile(EF_MINPINLEN, files[EF_MINPINLEN].(force := false));
      }
      ResetAuthToken();
      ResetPersistent();
      needsPowerCycle := false;
      status := Ok;
    }

    method ChangeCurrentPin(c: Command) returns (status: Status)
      requires Valid() && c.ChangePin?
      modifies this
      ensures Valid()
      ensures var r := PerformChangePin(old(Now()), c); Now() == r.device && status == r.status
    {
      hide VerifyPin, BeforeVerify, NewPinStatus, PinBytes, InstallPin;
      if !c.agreement.complete || c.agreement.protocol == 0 {
        return MissingParameter;
      }
      if c.agreement.protocol != 1 && c.agreement.protocol != 2 {
        return InvalidParameter;
      }
      var wellSized := |c.newPin.padded| >= 64 && |c.newPin.padded| % 16 == 0 && c.hashWellSized &&
        |c.newPin.padded| <= 256;
      status := Precheck(c.agreement, wellSized);
      if status != Ok {
        return;
      }
      if !c.macValid {
        return PinAuthInvalid;
      }
      status := Verify(c.offer);
      if status != Ok {
        return;
      }
      var pin;
      status, pin := CheckNewPin(c.newPin, MinPin(files), Complexity(files));
      if status != Ok {
        return;
      }
      if !c.rewraps {
        return PinInvalid;
      }
      status := Install(pin);
    }

    method CheckPermissions(c: Command) returns (status: Status)
      requires c.GetToken?
      ensures status == PermissionStatus(c)
    {
      if !c.withPermissions && (c.permissions != 0 || c.rpId.Some?) {
        return InvalidParameter;
      }
      if c.withPermissions {
        if c.permissions == 0 {
          return InvalidParameter;
        }
        if c.permissions & 0x08 != 0 {
          return UnauthorizedPermission;
        }
        if c.permissions & 0x40 != 0 && c.permissions != 0x40 {
          return UnauthorizedPermission;
        }
      }
      status := Ok;
    }

    method Issue(c: Command)
      requires Valid() && c.GetToken?
      modifies this`paut, this`ppaut, this`epoch, this`invalidations
      ensures Valid() && Rights() == IssueToken(old(Rights()), c)
    {
      if c.permissions & 0x40 != 0 {
        ppaut := PERMISSION_PCMR;
      } else {
        ResetAuthToken();
        BeginUsingToken(c.initial, c.usage);
        paut := paut.(permissions := Granted(c));
        paut := paut.(rpId := c.rpId);
      }
    }

    method GetUvToken(c: Command) returns (status: Status)
      requires Valid() && c.GetToken?
      modifies this
      ensures Valid()
      ensures var r := PerformGetToken(old(Now()), c); Now() == r.device && status == r.status
    {
      hide VerifyPin, BeforeVerify, PermissionStatus, IssueToken;
      if !c.agreement.complete || c.agreement.protocol == 0 {
        return MissingParameter;
      }
      if c.agreement.protocol != 1 && c.agreement.protocol != 2 {
        return InvalidParameter;
      }
      status := CheckPermissions(c);
      if status != Ok {
        return;
      }
      status := Precheck(c.agreement, true);
      if status != Ok {
        return;
      }
      status := Verify(c.offer);
      if status != Ok {
        return;
      }
      if ForceChange(files) {
        if c.withPermissions && c.permissions == 0x20 && c.rpId.None? {
          return PinPolicyViolation;
        }
        return PinInvalid;
      }
      Issue(c);
      needsPowerCycle := false;
    }

    // ---------- Minimum PIN length ----------

    method SetMinPinLength(c: Command) returns (status: Status)
      requires Valid() && c.SetMinPin?
      modifies this
      ensures Valid()
      ensures var r := PerformSetMinPin(old(Now()), c); Now() == r.device && status == r.status
    {
      hide ResetToken, ResetPersistentToken, Codepoints;
      if !c.macValid {
        return PinAuthInvalid;
      }
      if paut.permissions & PERMISSION_ACFG == 0 {
        return PinAuthInvalid;
      }
      var current := DEFAULT_MIN_PIN;
      if StoredMin(files).Some? {
        current := files[EF_MINPINLEN].minimum;
      }
      var newMinimum := c.newMinimum;
      if newMinimum == 0 {
        newMinimum := current;
      } else if newMinimum > MAX_PIN_LENGTH {
        return PinPolicyViolation;
      } else if newMinimum < current {
        return PinPolicyViolation;
      }
      var force := c.force;
      if force == Some(true) && StoredPin(files).None? {
        return PinNotSet;
      }
      if StoredPin(files).Some? && files[EF_PIN].length < newMinimum {
        force := Some(true);
      }
      if force.Some? {
        ResetPersistent();
        ResetAuthToken();
      }
      PutFile(EF_MINPINLEN, MinPinFile(newMinimum, force == Some(true), c.rpIds));
      if c.pinPolicy == Some(true) {
        PutFile(EF_PIN_COMPLEXITY, ComplexityFile(0));
      }
      status := Ok;
    }

    method SetComplexityPolicy(c: Command) returns (status: Status)
      requires Valid() && c.SetComplexity?
      modifies this`files, this`flash
      ensures Valid()
      ensures var r := PerformSetComplexity(old(Now()), c); Now() == r.device && status == r.status
    {
      if !c.macValid || paut.permissions & PERMISSION_ACFG == 0 {
        return PinAuthInvalid;
      }
      PutFile(EF_PIN_COMPLEXITY, ComplexityFile(c.policy));
      status := Ok;
    }

    // ---------- Dispatch ----------

    method ReadVerifiedFlag() returns (verified: bool)
      requires Valid()
      modifies this`paut
      ensures Valid() && Rights() == ReadUserVerified(old(Rights())) && verified == paut.userVerified
    {
      if !paut.inUse {
        paut := paut.(userVerified := false);
      }
      verified := paut.userVerified;
    }

    method TokenAuthorizes(verified: bool, permission: bv8, rp: Bytes) returns (ok: bool)
      requires verified == paut.userVerified
      ensures ok == Authorizes(paut, permission, rp)
    {
      if !verified {
        return false;
      }
      if paut.permissions & permission == 0 {
        return false;
      }
      ok := !(paut.rpId.Some? && paut.rpId.value != rp);
    }

    /** Checks a request's authorization by the token, and binds the token to its relying party. */
    method AuthorizeRequest(c: Command) returns (status: Status)
      requires Valid() && c.UseToken?
      modifies this`paut
      ensures Valid()
      ensures var r := PerformUseToken(old(Now()), c); Now() == r.device && status == r.status
    {
      hide Authorizes, ReadUserVerified;
      if !c.macValid {
        return PinAuthInvalid;
      }
      var verified := ReadVerifiedFlag();
      var ok := TokenAuthorizes(verified, c.permission, c.rp);
      if !ok {
        return PinAuthInvalid;
      }
      BoundTo(paut, c.permission, c.rp);
      if paut.rpId.None? {
        paut := paut.(rpId := Some(c.rp));
      }
      status := Ok;
    }

    /** Every request first looks at the clock. */
    method Serve(now: nat, c: Command) returns (status: Status)
      requires Valid()
      modifies this
      ensures Valid()
      ensures var r := Dispatch(old(Now()), now, c); Now() == r.device && status == r.status
    {
      hide PerformSetPin, PerformChangePin, PerformGetToken, PerformSetMinPin, PerformUseToken, PerformTestPresence,
        PerformSetComplexity, Tick, Initialize;
      TickToken(now);
      status := Ok;
      match c
      case SetPin(_, _, _) =>
        FirstUse();
        status := SetNewPin(c);
      case ChangePin(_, _, _, _, _, _) =>
        FirstUse();
        status := ChangeCurrentPin(c);
      case GetToken(_, _, _, _, _, _, _) =>
        FirstUse();
        status := GetUvToken(c);
      case SetMinPin(_, _, _, _, _) => status := SetMinPinLength(c);
      case SetComplexity(_, _) => status := SetComplexityPolicy(c);
      case UseToken(_, _, _) => status := AuthorizeRequest(c);
      case TestPresence(_, _, _, _) => status := TestUserPresence(c);
      case Inquire => FirstUse();
      case Unload => InvalidateEpoch();
      case Other =>
    }
  }
}
