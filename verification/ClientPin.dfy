/**
 PIN verification, the pinUvAuthToken and the minimum PIN length, as functions from one
 state of the authenticator to the next. A stored verifier is modelled by the PIN whose
 hash it was derived from, an encrypted parameter by its plaintext.
 */
module ClientPin {
  import opened Basics
  import opened Flash

  const EF_PIN: nat := 0x1080
  const EF_MINPINLEN: nat := 0x1100
  const EF_PIN_COMPLEXITY: nat := 0x1102
  const MAX_PIN_RETRIES: nat := 8
  const MAX_PIN_LENGTH: nat := 63
  const DEFAULT_MIN_PIN: nat := 4
  const MAX_MISMATCHES: nat := 3
  const TRANSPORT_TIME_LIMIT: nat := 30000
  const MAX_USAGE_TIME: nat := 600000
  const PADDED_PIN: nat := 64
  const IV_SIZE: nat := 16

  const PERMISSION_MC: bv8 := 0x01
  const PERMISSION_GA: bv8 := 0x02
  const PERMISSION_LBW: bv8 := 0x10
  const PERMISSION_ACFG: bv8 := 0x20
  const PERMISSION_PCMR: bv8 := 0x40

  const POLICY_UPPER: bv16 := 0x1
  const POLICY_LOWER: bv16 := 0x2
  const POLICY_DIGIT: bv16 := 0x4
  const POLICY_SYMBOL: bv16 := 0x8

  datatype Status =
    | Ok
    | MissingParameter
    | InvalidParameter
    | NotAllowed
    | PinNotSet
    | PinBlocked
    | PinAuthBlocked
    | PinAuthInvalid
    | PinInvalid
    | PinPolicyViolation
    | Processing
    | UnauthorizedPermission
    | InvalidOption
    | OperationDenied

  /** `legacy` marks the older, shorter file whose verifier is a plain double hash. */
  datatype Cfg =
    | PinFile(retries: nat, length: nat, legacy: bool, pin: Bytes)
    | MinPinFile(minimum: nat, force: bool, rpIds: seq<Bytes>)
    | ComplexityFile(policy: bv16)

  datatype Token = Token(
    inUse: bool,
    permissions: bv8,
    rpId: Option<Bytes>,
    userPresent: bool,
    userVerified: bool,
    initialLimit: nat,
    usageTimer: nat)

  const NO_TOKEN := Token(false, 0, None, false, false, 0, 0)

  /** The token's state in RAM; `invalidations` counts, for the record, how often the epoch was advanced. */
  datatype Session = Session(ready: bool, token: Token, persistent: bv8, epoch: nat, invalidations: nat)

  /**
   The last two fields are history: how many comparisons were made since a PIN command last
   succeeded, and how many failed in a row since then or since power-up.
   */
  datatype Device = Device(
    flash: State<Cfg>,
    session: Session,
    mismatches: nat,
    needsPowerCycle: bool,
    tries: nat,
    failures: nat)

  datatype Outcome = Outcome(device: Device, status: Status)

  // ---------- Session epoch ----------

  function NextEpoch(epoch: nat): nat {
    if epoch >= UINT32_MAX then 1 else epoch + 1
  }

  function Invalidate(s: Session): Session {
    s.(epoch := NextEpoch(s.epoch), invalidations := s.invalidations + 1)
  }

  // ---------- Token ----------

  function ResetToken(s: Session): Session {
    Invalidate(s.(token := s.token.(permissions := 0)))
  }

  function ResetPersistentToken(s: Session): Session {
    Invalidate(s.(persistent := 0))
  }

  /** The two clock readings are taken one after the other. */
  function BeginUsing(s: Session, initial: nat, usage: nat): Session {
    Invalidate(s.(token := s.token.(userPresent := false, userVerified := true,
                                    initialLimit := initial, usageTimer := usage, inUse := true)))
  }

  function ClearUserPresent(s: Session): Session {
    if s.token.inUse && s.token.userPresent then Invalidate(s.(token := s.token.(userPresent := false))) else s
  }

  function ClearUserVerified(s: Session): Session {
    if s.token.inUse && s.token.userVerified then Invalidate(s.(token := s.token.(userVerified := false))) else s
  }

  function ClearPermissionsExceptLbw(s: Session): Session {
    if s.token.inUse && s.token.permissions != PERMISSION_LBW
    then Invalidate(s.(token := s.token.(permissions := PERMISSION_LBW)))
    else s
  }

  function ConsumePresence(s: Session): Session {
    ClearPermissionsExceptLbw(ClearUserVerified(ClearUserPresent(s)))
  }

  predicate TokenActive(token: Token) {
    token.inUse || token.permissions != 0 || token.rpId.Some? || token.userPresent || token.userVerified
  }

  function StopUsing(s: Session): Session {
    var stopped := s.(token := NO_TOKEN);
    if TokenActive(s.token) then Invalidate(stopped) else stopped
  }

  predicate Expired(token: Token, now: nat) {
    Add32(token.usageTimer, MAX_USAGE_TIME) <= now ||
    token.initialLimit == 0 ||
    Add32(token.initialLimit, TRANSPORT_TIME_LIMIT) <= now
  }

  /** No presence time limit is ever set, so a surviving token loses its presence flag. */
  function Tick(s: Session, now: nat): Session {
    if s.token.usageTimer == 0 then s
    else if s.token.inUse && Expired(s.token, now) then StopUsing(s)
    else ClearUserPresent(s)
  }

  /** The firmware sets up its key agreement key, and with it a token, on first use. */
  function Initialize(s: Session): Session {
    if s.ready then s else ResetToken(s).(ready := true)
  }

  /** The user-verified flag as read by a command that relies on it; reading drops the flag of an idle token. */
  function ReadUserVerified(s: Session): Session {
    if s.token.inUse then s else s.(token := s.token.(userVerified := false))
  }

  function ReadUserPresent(s: Session): Session {
    if s.token.inUse then s else s.(token := s.token.(userPresent := false))
  }

  // ---------- PIN text ----------

  /** The bytes before the first zero. */
  function PinBytes(padded: Bytes): Bytes {
    if padded == [] || padded[0] == 0 then [] else [padded[0]] + PinBytes(padded[1..])
  }

  predicate StartsCodepoint(b: bv8) {
    b & 0xC0 != 0x80
  }

  function Codepoints(pin: Bytes): nat {
    if pin == [] then 0
    else Codepoints(pin[..|pin| - 1]) + (if StartsCodepoint(pin[|pin| - 1]) then 1 else 0)
  }

  predicate IsUpper(b: bv8) { 0x41 <= b <= 0x5A }

  predicate IsLower(b: bv8) { 0x61 <= b <= 0x7A }

  predicate IsDigit(b: bv8) { 0x30 <= b <= 0x39 }

  predicate IsSymbol(b: bv8) { !IsUpper(b) && !IsLower(b) && !IsDigit(b) }

  predicate MeetsPolicy(pin: Bytes, policy: bv16) {
    (policy & POLICY_UPPER != 0 ==> exists i :: 0 <= i < |pin| && IsUpper(pin[i])) &&
    (policy & POLICY_LOWER != 0 ==> exists i :: 0 <= i < |pin| && IsLower(pin[i])) &&
    (policy & POLICY_DIGIT != 0 ==> exists i :: 0 <= i < |pin| && IsDigit(pin[i])) &&
    (policy & POLICY_SYMBOL != 0 ==> exists i :: 0 <= i < |pin| && IsSymbol(pin[i]))
  }

  // ---------- Stored configuration ----------

  function StoredPin(files: map<nat, Cfg>): Option<Cfg> {
    if EF_PIN in files && files[EF_PIN].PinFile? then Some(files[EF_PIN]) else None
  }

  function StoredMin(files: map<nat, Cfg>): Option<Cfg> {
    if EF_MINPINLEN in files && files[EF_MINPINLEN].MinPinFile? then Some(files[EF_MINPINLEN]) else None
  }

  function MinPin(files: map<nat, Cfg>): nat {
    var stored := StoredMin(files);
    if stored.Some? then stored.value.minimum else DEFAULT_MIN_PIN
  }

  predicate ForceChange(files: map<nat, Cfg>) {
    var stored := StoredMin(files);
    stored.Some? && stored.value.force
  }

  /** The character classes a new PIN must contain. */
  function Complexity(files: map<nat, Cfg>): bv16 {
    if EF_PIN_COMPLEXITY in files && files[EF_PIN_COMPLEXITY].ComplexityFile? then files[EF_PIN_COMPLEXITY].policy
    else 0
  }

  function Write(s: Device, fid: nat, file: Cfg): Device {
    s.(flash := Step(s.flash, Put(fid, file)))
  }

  // ---------- Requests ----------

  /** What the key agreement part of a request amounts to. */
  datatype Agreement = Agreement(complete: bool, protocol: nat, keysReadable: bool, agreed: bool)

  /** An encrypted new PIN: its plaintext, padding included, and whether it decrypts. */
  datatype NewPin = NewPin(padded: Bytes, decrypts: bool)

  /** The PIN offered as the current one, and how the steps around its comparison go. */
  datatype Offer = Offer(pin: Bytes, decrypts: bool, persisted: Persisted, keyUnwraps: bool)

  /** The commands that ask for the user's presence. */
  datatype Ceremony = Registration | Assertion

  /** `Inquire` stands for the PIN commands that only report something, `Other` for all that use no token. */
  datatype Command =
    | SetPin(agreement: Agreement, macValid: bool, newPin: NewPin)
    | ChangePin(agreement: Agreement, hashWellSized: bool, macValid: bool, offer: Offer, newPin: NewPin, rewraps: bool)
    | GetToken(agreement: Agreement, withPermissions: bool, permissions: bv64, rpId: Option<Bytes>, offer: Offer,
      initial: nat, usage: nat)
    | SetMinPin(macValid: bool, newMinimum: nat, force: Option<bool>, rpIds: seq<Bytes>, pinPolicy: Option<bool>)
    | SetComplexity(macValid: bool, policy: bv16)
    | UseToken(macValid: bool, permission: bv8, rp: Bytes)
    | TestPresence(ceremony: Ceremony, up: Option<bool>, authenticated: bool, touched: bool)
    | Inquire
    | Unload
    | Other

  // ---------- Verifying the current PIN ----------

  predicate PinMatches(file: Cfg, offer: Offer)
    requires file.PinFile?
  {
    file.pin == offer.pin
  }

  /** A failed comparison: blocked for good, until power-up, or not yet. */
  function Mismatch(s: Device, retries: nat): Outcome {
    var counted := s.(failures := s.failures + 1);
    if retries == 0 then Outcome(counted, PinBlocked)
    else
      var again := counted.(mismatches := s.mismatches + 1);
      if again.mismatches >= MAX_MISMATCHES then Outcome(again.(needsPowerCycle := true), PinAuthBlocked)
      else Outcome(again, PinInvalid)
  }

  /** A matching comparison restores the counter and upgrades a legacy file. */
  function Match(s: Device, file: Cfg, offer: Offer): Outcome
    requires file.PinFile?
  {
    if file.legacy && !offer.keyUnwraps then Outcome(s, PinInvalid)
    else
      var restored := Write(s, EF_PIN, file.(retries := MAX_PIN_RETRIES, legacy := false));
      Outcome(restored.(mismatches := 0, tries := 0, failures := 0), Ok)
  }

  /** The counter is lowered and made durable before the comparison is made. */
  function VerifyPin(s: Device, file: Cfg, offer: Offer): Outcome
    requires file.PinFile? && file.retries > 0
  {
    var lowered := file.(retries := file.retries - 1);
    if offer.persisted.WriteFails? then Outcome(s, Processing)
    else
      var written := Write(s, EF_PIN, lowered);
      if offer.persisted.CommitTimesOut? then Outcome(written, Processing)
      else
        var durable := written.(flash := Step(written.flash, Sync));
        if !offer.decrypts then Outcome(durable, PinAuthInvalid)
        else
          var compared := durable.(tries := s.tries + 1);
          if PinMatches(lowered, offer) then Match(compared, lowered, offer) else Mismatch(compared, lowered.retries)
  }

  // ---------- Accepting a new PIN ----------

  /** Status of the checks on a decrypted new PIN; its bytes when they all pass. */
  function NewPinStatus(newPin: NewPin, minimum: nat, policy: bv16): Status {
    if !newPin.decrypts then PinAuthInvalid
    else if |newPin.padded| != PADDED_PIN || newPin.padded[PADDED_PIN - 1] != 0 then PinPolicyViolation
    else
      var pin := PinBytes(newPin.padded);
      if Codepoints(pin) < minimum || !MeetsPolicy(pin, policy) then PinPolicyViolation else Ok
  }

  predicate KnownProtocol(protocol: nat) {
    protocol == 1 || protocol == 2
  }

  predicate WholeBlocks(padded: Bytes) {
    |padded| >= PADDED_PIN && |padded| % 16 == 0
  }

  // ---------- Commands ----------

  function PerformSetPin(s: Device, c: Command): Outcome
    requires c.SetPin?
  {
    var a := c.agreement;
    if !a.complete || a.protocol == 0 then Outcome(s, MissingParameter)
    else if !KnownProtocol(a.protocol) then Outcome(s, InvalidParameter)
    else if StoredPin(s.flash.vol).Some? then Outcome(s, NotAllowed)
    else if !WholeBlocks(c.newPin.padded) || !a.keysReadable || !a.agreed then Outcome(s, InvalidParameter)
    else if !c.macValid then Outcome(s, PinAuthInvalid)
    else if |c.newPin.padded| > 256 + IV_SIZE then Outcome(s, InvalidParameter)
    else
      var checked := NewPinStatus(c.newPin, MinPin(s.flash.vol), Complexity(s.flash.vol));
      if checked != Ok then Outcome(s, checked)
      else
        var pin := PinBytes(c.newPin.padded);
        var written := Write(s, EF_PIN, PinFile(MAX_PIN_RETRIES, Codepoints(pin), false, pin));
        Outcome(written.(mismatches := 0, needsPowerCycle := false, tries := 0, failures := 0), Ok)
  }

  /** The checks shared by the commands that take the current PIN, before it is compared. */
  function BeforeVerify(s: Device, agreement: Agreement, wellSized: bool): Status {
    var stored := StoredPin(s.flash.vol);
    if stored.None? then PinNotSet
    else if stored.value.retries == 0 then PinBlocked
    else if !wellSized || !agreement.keysReadable then InvalidParameter
    else if s.needsPowerCycle then PinAuthBlocked
    else if !agreement.agreed then InvalidParameter
    else Ok
  }

  /** Installs the new PIN and, if a change was being forced, ends that. */
  function InstallPin(s: Device, pin: Bytes): Outcome {
    var files := s.flash.vol;
    var stored := StoredPin(files);
    if ForceChange(files) && stored.Some? && stored.value.pin == pin then Outcome(s, PinPolicyViolation)
    else
      var written := Write(s, EF_PIN, PinFile(MAX_PIN_RETRIES, Codepoints(pin), false, pin));
      var freed :=
        if ForceChange(files) then Write(written, EF_MINPINLEN, StoredMin(files).value.(force := false)) else written;
      Outcome(freed.(session := ResetPersistentToken(ResetToken(s.session)), needsPowerCycle := false), Ok)
  }

  function PerformChangePin(s: Device, c: Command): Outcome
    requires c.ChangePin?
  {
    var a := c.agreement;
    if !a.complete || a.protocol == 0 then Outcome(s, MissingParameter)
    else if !KnownProtocol(a.protocol) then Outcome(s, InvalidParameter)
    else
      var wellSized := WholeBlocks(c.newPin.padded) && c.hashWellSized && |c.newPin.padded| <= 256;
      var before := BeforeVerify(s, a, wellSized);
      if before != Ok then Outcome(s, before)
      else if !c.macValid then Outcome(s, PinAuthInvalid)
      else
        var verified := VerifyPin(s, StoredPin(s.flash.vol).value, c.offer);
        if verified.status != Ok then verified
        else
          var files := verified.device.flash.vol;
          var checked := NewPinStatus(c.newPin, MinPin(files), Complexity(files));
          if checked != Ok then Outcome(verified.device, checked)
          else if !c.rewraps then Outcome(verified.device, PinInvalid)
          else InstallPin(verified.device, PinBytes(c.newPin.padded))
  }

  function PermissionStatus(c: Command): Status
    requires c.GetToken?
  {
    if !c.withPermissions then
      if c.permissions != 0 || c.rpId.Some? then InvalidParameter else Ok
    else if c.permissions == 0 then InvalidParameter
    else if c.permissions & 0x08 != 0 then UnauthorizedPermission
    else if c.permissions & 0x40 != 0 && c.permissions != 0x40 then UnauthorizedPermission
    else Ok
  }

  /** The permissions a token gets; they are kept in one byte. */
  function Granted(c: Command): bv8
    requires c.GetToken?
  {
    if c.withPermissions then (c.permissions & 0xFF) as bv8 else PERMISSION_MC | PERMISSION_GA
  }

  function IssueToken(s: Session, c: Command): Session
    requires c.GetToken?
  {
    if c.permissions & 0x40 != 0 then s.(persistent := PERMISSION_PCMR)
    else
      var begun := BeginUsing(ResetToken(s), c.initial, c.usage);
      begun.(token := begun.token.(permissions := Granted(c), rpId := c.rpId))
  }

  function PerformGetToken(s: Device, c: Command): Outcome
    requires c.GetToken?
  {
    var a := c.agreement;
    if !a.complete || a.protocol == 0 then Outcome(s, MissingParameter)
    else if !KnownProtocol(a.protocol) then Outcome(s, InvalidParameter)
    else if PermissionStatus(c) != Ok then Outcome(s, PermissionStatus(c))
    else
      var before := BeforeVerify(s, a, true);
      if before != Ok then Outcome(s, before)
      else
        var verified := VerifyPin(s, StoredPin(s.flash.vol).value, c.offer);
        if verified.status != Ok then verified
        else if ForceChange(verified.device.flash.vol) then
          Outcome(verified.device,
                  if c.withPermissions && c.permissions == 0x20 && c.rpId.None? then PinPolicyViolation else PinInvalid)
        else
          Outcome(verified.device.(session := IssueToken(verified.device.session, c), needsPowerCycle := false), Ok)
  }

  function PerformSetMinPin(s: Device, c: Command): Outcome
    requires c.SetMinPin?
  {
    var files := s.flash.vol;
    var stored := StoredPin(files);
    var minimum := if c.newMinimum == 0 then MinPin(files) else c.newMinimum;
    if !c.macValid || s.session.token.permissions & PERMISSION_ACFG == 0 then Outcome(s, PinAuthInvalid)
    else if c.newMinimum != 0 && (c.newMinimum > MAX_PIN_LENGTH || c.newMinimum < MinPin(files)) then
      Outcome(s, PinPolicyViolation)
    else if c.force == Some(true) && stored.None? then Outcome(s, PinNotSet)
    else
      var tooShort := stored.Some? && stored.value.length < minimum;
      var reset := if tooShort || c.force.Some? then ResetToken(ResetPersistentToken(s.session)) else s.session;
      var limited := Write(s.(session := reset), EF_MINPINLEN,
        MinPinFile(minimum, tooShort || c.force == Some(true), c.rpIds));
      Outcome(if c.pinPolicy == Some(true) then Write(limited, EF_PIN_COMPLEXITY, ComplexityFile(0)) else limited, Ok)
  }

  function PerformSetComplexity(s: Device, c: Command): Outcome
    requires c.SetComplexity?
  {
    if !c.macValid || s.session.token.permissions & PERMISSION_ACFG == 0 then Outcome(s, PinAuthInvalid)
    else Outcome(Write(s, EF_PIN_COMPLEXITY, ComplexityFile(c.policy)), Ok)
  }

  /** Whether the token authorizes a request for one of its permissions at `rp`. */
  predicate Authorizes(token: Token, permission: bv8, rp: Bytes) {
    token.permissions & permission != 0 && token.userVerified && (token.rpId.Some? ==> token.rpId.value == rp)
  }

  /** A request that carries the token's authorization; the first one binds the token to its relying party. */
  function PerformUseToken(s: Device, c: Command): Outcome
    requires c.UseToken?
  {
    var read := ReadUserVerified(s.session);
    if !c.macValid then Outcome(s, PinAuthInvalid)
    else if !Authorizes(read.token, c.permission, c.rp) then Outcome(s.(session := read), PinAuthInvalid)
    else Outcome(s.(session := read.(token := read.token.(rpId := Some(c.rp)))), Ok)
  }

  /**
   Whether a command that got the user's consent uses it up: a registration does so only when asked
   for it by name.
   */
  predicate Consumes(c: Command)
    requires c.TestPresence?
  {
    c.up == Some(true) || (c.ceremony.Assertion? && c.up != Some(false))
  }

  /** An authorized request asks for a touch unless the token remembers one; any other asks in an assertion only. */
  function PerformTestPresence(s: Device, c: Command): Outcome
    requires c.TestPresence?
  {
    if c.up == Some(false) then Outcome(s, if c.ceremony.Registration? then InvalidOption else Ok)
    else
      var read := if c.authenticated then ReadUserPresent(s.session) else s.session;
      var asks := if c.authenticated then !read.token.userPresent else c.ceremony.Assertion?;
      if asks && !c.touched then Outcome(s.(session := read), OperationDenied)
      else Outcome(s.(session := if Consumes(c) then ConsumePresence(read) else read), Ok)
  }

  function Perform(s: Device, c: Command): Outcome {
    match c
    case SetPin(_, _, _) => PerformSetPin(s.(session := Initialize(s.session)), c)
    case ChangePin(_, _, _, _, _, _) => PerformChangePin(s.(session := Initialize(s.session)), c)
    case GetToken(_, _, _, _, _, _, _) => PerformGetToken(s.(session := Initialize(s.session)), c)
    case SetMinPin(_, _, _, _, _) => PerformSetMinPin(s, c)
    case SetComplexity(_, _) => PerformSetComplexity(s, c)
    case UseToken(_, _, _) => PerformUseToken(s, c)
    case TestPresence(_, _, _, _) => PerformTestPresence(s, c)
    case Inquire => Outcome(s.(session := Initialize(s.session)), Ok)
    case Unload => Outcome(s.(session := Invalidate(s.session)), Ok)
    case Other => Outcome(s, Ok)
  }

  /** Every command is preceded by a look at the clock. */
  function Dispatch(s: Device, now: nat, c: Command): Outcome {
    Perform(s.(session := Tick(s.session, now)), c)
  }

  /** The session after power-up: the epoch starts at 1 and is advanced once. */
  function NewSession(): Session {
    Invalidate(Session(false, NO_TOKEN, 0, 1, 0))
  }

  /** Power-up over what is left in flash. */
  function PowerUp(image: map<nat, Cfg>, tries: nat): Device {
    Device(Boot(image), NewSession(), 0, false, tries, 0)
  }
}
