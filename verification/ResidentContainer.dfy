/**
 The two-slot container that stores one resident credential: file identifiers,
 manifest selection and the update and delete procedures, as functions from the
 visible files to the sequence of flash operations the firmware issues.
 */
module ResidentContainer {
  import opened Basics
  import opened Flash

  // ---------- File identifiers ----------

  const EF_CRED: nat := 0xCF00
  const EF_RP: nat := 0xD000
  const RP_ID_HASH: nat := 1
  const CLIENT_ID: nat := 2
  const CREDENTIAL: nat := 3
  const PUBLIC_KEY: nat := 4

  /** Capacity of a manifest; a container never holds more than one object per type. */
  const MAX_OBJECTS: nat := 16

  function MarkerFid(slot: nat): nat {
    EF_CRED + slot
  }

  function ManifestFid(slot: nat, k: nat): nat {
    ((if k == 0 then 0xD1 else 0xD2) * 256 + slot) % 0x10000
  }

  function RecordFid(slot: nat, k: nat, objectType: nat): nat
    requires objectType >= 1
  {
    (((if k == 0 then 0xD3 else 0xD7) + objectType - 1) * 256 + slot) % 0x10000
  }

  /** The other of the two halves. */
  function Other(k: nat): nat {
    if k == 0 then 1 else 0
  }

  predicate TypeValid(objectType: nat) {
    RP_ID_HASH <= objectType <= PUBLIC_KEY
  }

  /** Every file a slot may own. */
  predicate SlotFid(slot: nat, fid: nat) {
    || fid == MarkerFid(slot)
    || fid == ManifestFid(slot, 0) || fid == ManifestFid(slot, 1)
    || (exists k, t :: 0 <= k < 2 && RP_ID_HASH <= t <= PUBLIC_KEY && fid == RecordFid(slot, k, t))
  }

  // ---------- File contents ----------

  datatype Protection = AuthenticatedPublic | AeadSecret

  datatype Descriptor = Descriptor(
    objectType: nat, generation: nat, logicalSize: nat, recordId: nat, storedSize: nat,
    protection: Protection, flags: nat)

  datatype Manifest = Manifest(
    containerId: nat, generation: nat, previous: nat, objects: seq<Descriptor>, extensionSize: nat)

  /**
   A record opens only under the identity it was sealed for: the container and the
   whole descriptor. A manifest that does not authenticate is a `Raw` file.
   */
  datatype File =
    | Marker(slot: nat)
    | ManifestFile(manifest: Manifest)
    | Record(owner: nat, sealedFor: Descriptor, data: Bytes)
    | Raw(bytes: Bytes)

  type Files = map<nat, File>

  predicate HasData(files: Files, fid: nat) {
    fid in files && files[fid] != Raw([])
  }

  predicate IsMarker(files: Files, slot: nat) {
    At(files, MarkerFid(slot)) == Some(Marker(slot))
  }

  // ---------- Manifest selection ----------

  predicate RecordIdValid(slot: nat, d: Descriptor) {
    && TypeValid(d.objectType)
    && (d.recordId == RecordFid(slot, 0, d.objectType) || d.recordId == RecordFid(slot, 1, d.objectType))
  }

  predicate HeaderAccepts(files: Files, d: Descriptor) {
    && d.recordId in files
    && files[d.recordId].Record?
    && |files[d.recordId].data| == d.storedSize
  }

  predicate ManifestAccepted(files: Files, slot: nat, m: Manifest) {
    && m.containerId == slot
    && m.objects != []
    && (forall i :: 0 <= i < |m.objects| ==> RecordIdValid(slot, m.objects[i]))
    && (forall i, j :: 0 <= j < i < |m.objects| ==> m.objects[j].objectType != m.objects[i].objectType)
    && (forall i :: 0 <= i < |m.objects| ==> HeaderAccepts(files, m.objects[i]))
  }

  function ParseSlot(files: Files, slot: nat, k: nat): Option<Manifest> {
    var file: Option<File> := At(files, ManifestFid(slot, k));
    match file
    case Some(ManifestFile(m)) => if ManifestAccepted(files, slot, m) then Some(m) else None
    case _ => None
  }

  /** `Loaded` names the newest acceptable manifest and the half it sits in. */
  datatype Loading = Loaded(manifest: Manifest, half: nat) | Missing | Damaged

  function Load(files: Files, slot: nat): Loading {
    match (ParseSlot(files, slot, 0), ParseSlot(files, slot, 1))
    case (Some(a), Some(b)) =>
      if a.generation == b.generation then Damaged
      else if a.generation > b.generation then Loaded(a, 0) else Loaded(b, 1)
    case (Some(a), None) => Loaded(a, 0)
    case (None, Some(b)) => Loaded(b, 1)
    case (None, None) =>
      if HasData(files, ManifestFid(slot, 0)) || HasData(files, ManifestFid(slot, 1)) then Damaged else Missing
  }

  function Unseal(files: Files, slot: nat, d: Descriptor): Option<Bytes> {
    var file: Option<File> := At(files, d.recordId);
    match file
    case Some(Record(owner, sealedFor, data)) => if owner == slot && sealedFor == d then Some(data) else None
    case _ => None
  }

  predicate Validates(files: Files, slot: nat, m: Manifest) {
    forall i :: 0 <= i < |m.objects| ==>
      var plain := Unseal(files, slot, m.objects[i]);
      plain.Some? && |plain.value| == m.objects[i].logicalSize
  }

  predicate CanCreate(files: Files, slot: nat) {
    if ManifestFid(slot, 0) in files || ManifestFid(slot, 1) in files then
      var loading := Load(files, slot);
      loading.Loaded? && Validates(files, slot, loading.manifest)
    else
      forall k, t :: 0 <= k < 2 && RP_ID_HASH <= t <= PUBLIC_KEY && RecordFid(slot, k, t) in files ==>
        files[RecordFid(slot, k, t)].Record?
  }

  datatype Status = Ok | NullParam | NotFound | WrongData | NoMemory | Unreadable | WriteFailed | MemoryFatal

  /** The status of a call whose operations stop at a fault. */
  function Conclude(status: Status, fault: Option<Fault>): Status {
    match fault
    case None => status
    case Some(WriteFault) => WriteFailed
    case Some(CommitFault) => MemoryFatal
  }

  /** What an update builds on: nothing, an existing manifest, or a refusal. */
  datatype Choice = Fresh | Base(manifest: Manifest, half: nat) | Refused(status: Status)

  function Choose(files: Files, slot: nat): Choice {
    match Load(files, slot)
    case Damaged => Refused(WrongData)
    case Missing => if CanCreate(files, slot) then Fresh else Refused(WrongData)
    case Loaded(m, c) =>
      if Validates(files, slot, m) then Base(m, c)
      else
        match ParseSlot(files, slot, Other(c))
        case Some(p) => if Validates(files, slot, p) then Base(p, Other(c)) else Refused(Unreadable)
        case None => Refused(Unreadable)
  }

  // ---------- Update ----------

  datatype Write = Write(objectType: nat, data: Bytes, protection: Protection, flags: nat, inline: bool)

  datatype Plan = Plan(ops: Log<File>, status: Status)

  datatype Writing = Writing(ops: Log<File>, objects: seq<Descriptor>, status: Status)

  /** Index of the first object of a type, or the number of objects when there is none. */
  function Find(objects: seq<Descriptor>, objectType: nat): (i: nat)
    ensures i <= |objects|
    ensures i < |objects| ==> objects[i].objectType == objectType
  {
    if objects == [] || objects[0].objectType == objectType then 0 else 1 + Find(objects[1..], objectType)
  }

  function NewDescriptor(slot: nat, target: nat, w: Write, generation: nat): Descriptor
    requires TypeValid(w.objectType)
  {
    Descriptor(w.objectType, generation, |w.data|, RecordFid(slot, target, w.objectType), |w.data|, w.protection,
      w.flags)
  }

  predicate WriteRefused(writes: seq<Write>, i: nat)
    requires i < |writes|
  {
    || !TypeValid(writes[i].objectType)
    || writes[i].inline
    || (exists j :: 0 <= j < i && writes[j].objectType == writes[i].objectType)
  }

  /** The loop over the writes: each one replaces a record and edits the object array. */
  function WriteRecords(files: Files, slot: nat, target: nat, objects: seq<Descriptor>, writes: seq<Write>,
                        i: nat): Writing
    requires i <= |writes|
    decreases |writes| - i
  {
    if i == |writes| then Writing([], objects, Ok)
    else if WriteRefused(writes, i) then Writing([], objects, WrongData)
    else
      var w := writes[i];
      var at := Find(objects, w.objectType);
      if at < |objects| && objects[at].generation == UINT32_MAX then Writing([], objects, WrongData)
      else
        var d := NewDescriptor(slot, target, w, if at < |objects| then objects[at].generation + 1 else 1);
        var ops := Replace(files, d.recordId, Record(slot, d, w.data));
        if at == |objects| >= MAX_OBJECTS then Writing(ops, objects, NoMemory)
        else
          var objects' := if at < |objects| then objects[at := d] else objects + [d];
          var rest := WriteRecords(files[d.recordId := Record(slot, d, w.data)], slot, target, objects', writes, i + 1);
          Writing(ops + rest.ops, rest.objects, rest.status)
  }

  predicate References(m: Manifest, fid: nat) {
    exists i :: 0 <= i < |m.objects| && m.objects[i].recordId == fid
  }

  function UnreferencedRecords(slot: nat, k: nat, m: Manifest, t: nat): seq<nat>
    requires 1 <= t <= PUBLIC_KEY + 1
    decreases PUBLIC_KEY + 1 - t
  {
    if t > PUBLIC_KEY then []
    else
      (if References(m, RecordFid(slot, k, t)) then [] else [RecordFid(slot, k, t)]) +
        UnreferencedRecords(slot, k, m, t + 1)
  }

  /** What the collection step deletes in one half. */
  function HalfGarbage(slot: nat, target: nat, m: Manifest, k: nat): seq<nat> {
    (if target != k then [ManifestFid(slot, k)] else []) + UnreferencedRecords(slot, k, m, 1)
  }

  /** Files the collection step deletes once manifest `m` in half `target` is durable. */
  function Garbage(slot: nat, target: nat, m: Manifest): seq<nat> {
    HalfGarbage(slot, target, m, 0) + HalfGarbage(slot, target, m, 1)
  }

  function MarkerOps(files: Files, slot: nat): Log<File> {
    if IsMarker(files, slot) then [] else Replace(files, MarkerFid(slot), Marker(slot)) + [Sync]
  }

  /** After the manifest is durable: write the marker if it is missing, then collect. */
  function Tail(files: Files, slot: nat, target: nat, next: Manifest): Log<File> {
    var marker := MarkerOps(files, slot);
    marker + Remove(Apply(files, marker), Garbage(slot, target, next))
  }

  function Publish(files: Files, slot: nat, target: nat, next: Manifest): Log<File> {
    var manifest := Replace(files, ManifestFid(slot, target), ManifestFile(next));
    manifest + [Sync] + Tail(Apply(files, manifest), slot, target, next)
  }

  function Commit(files: Files, slot: nat, target: nat, base: Manifest, writes: seq<Write>): Plan {
    var w := WriteRecords(files, slot, target, base.objects, writes, 0);
    if w.status != Ok then Plan(w.ops, w.status)
    else Plan(w.ops + [Sync] + Publish(Apply(files, w.ops), slot, target, base.(objects := w.objects)), Ok)
  }

  function FirstManifest(slot: nat): Manifest {
    Manifest(slot, 1, 0, [], 0)
  }

  function Bumped(m: Manifest): Manifest {
    m.(previous := m.generation, generation := m.generation + 1)
  }

  function UpdatePlan(files: Files, slot: nat, writes: seq<Write>): Plan {
    if writes == [] || |writes| > MAX_OBJECTS then Plan([], NullParam)
    else
      match Choose(files, slot)
      case Refused(status) => Plan([], status)
      case Fresh => Commit(files, slot, 0, FirstManifest(slot), writes)
      case Base(m, c) =>
        if m.generation == UINT32_MAX || m.extensionSize != 0 then Plan([], WrongData)
        else Commit(files, slot, Other(c), Bumped(m), writes)
  }

  // ---------- The four operations ----------

  const CREDENTIAL_FLAGS: nat := 3

  function CredentialWrite(credential: Bytes): Write {
    Write(CREDENTIAL, credential, AeadSecret, CREDENTIAL_FLAGS, false)
  }

  function CreateWrites(rpIdHash: Bytes, clientId: Bytes, credential: Bytes, publicKey: Bytes): seq<Write> {
    [ Write(RP_ID_HASH, rpIdHash, AuthenticatedPublic, 0, false),
      Write(CLIENT_ID, clientId, AuthenticatedPublic, 0, false),
      CredentialWrite(credential),
      Write(PUBLIC_KEY, publicKey, AuthenticatedPublic, 0, false) ]
  }

  function SlotRecords(slot: nat, k: nat): seq<nat> {
    [RecordFid(slot, k, 1), RecordFid(slot, k, 2), RecordFid(slot, k, 3), RecordFid(slot, k, 4)]
  }

  /** What a deletion removes, in order: both halves, then the marker. */
  function DeleteFids(slot: nat): seq<nat> {
    SlotRecords(slot, 0) + [ManifestFid(slot, 0)] + SlotRecords(slot, 1) + [ManifestFid(slot, 1)] + [MarkerFid(slot)]
  }

  function DeletePlan(files: Files, slot: nat): Plan {
    if !IsMarker(files, slot) then Plan([], NotFound)
    else
      match Load(files, slot)
      case Damaged => Plan([], WrongData)
      case Missing => Plan([], NotFound)
      case Loaded(_, _) =>
        Plan(Remove(files, DeleteFids(slot)) + [Sync], Ok)
  }

  /** Reading one object: the newest manifest first, then the other half. */
  function ReadFrom(files: Files, slot: nat, m: Manifest, objectType: nat): Option<Bytes> {
    var at := Find(m.objects, objectType);
    if at < |m.objects| then Unseal(files, slot, m.objects[at]) else None
  }

  function Read(files: Files, slot: nat, objectType: nat): Option<Bytes> {
    match Load(files, slot)
    case Loaded(m, c) =>
      var newest := ReadFrom(files, slot, m, objectType);
      if newest.Some? then newest
      else
        (match ParseSlot(files, slot, Other(c))
         case Some(p) => ReadFrom(files, slot, p, objectType)
         case None => None)
    case _ => None
  }

  /** A manifest that does not list the object says nothing about the outcome; one whose record does not open does. */
  function ReadStatus(files: Files, slot: nat, objectType: nat): Status {
    match Load(files, slot)
    case Damaged => WrongData
    case Missing => NotFound
    case Loaded(m, c) =>
      var previous := ParseSlot(files, slot, Other(c));
      if Read(files, slot, objectType).Some? then Ok
      else if Find(m.objects, objectType) < |m.objects| then Unreadable
      else if previous.Some? && Find(previous.value.objects, objectType) < |previous.value.objects| then Unreadable
      else Ok
  }
}
