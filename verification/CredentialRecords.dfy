/**
 The three layouts a resident credential may be stored in, and what each says about its
 relying party, its resident ID and the seed of its signing key. Sealing and derivation
 are parameters, of which only what is stated here is assumed.
 */
module CredentialRecords {
  import opened Basics

  const RP_HASH_LEN: nat := 32
  const RESIDENT_LEN: nat := 42
  const MAGIC_OFFSET: nat := 4
  const MAGIC_LEN: nat := 4

  /** Marks resident IDs of the earlier kind, whose keys come from the sealed credential. */
  const MAGIC_23: Bytes := [0xF1, 0xD0, 0x02, 0x03]

  /** Marks resident IDs that are themselves the seed of the key. */
  const MAGIC_26: Bytes := [0xF1, 0xD0, 0x02, 0x06]

  /** The four bytes that mark a resident ID, behind a serial-dependent prefix. */
  function Magic(id: Bytes): Bytes
    requires |id| >= MAGIC_OFFSET + MAGIC_LEN
  {
    [id[MAGIC_OFFSET], id[MAGIC_OFFSET + 1], id[MAGIC_OFFSET + 2], id[MAGIC_OFFSET + 3]]
  }

  predicate IsResident(id: Bytes) {
    |id| >= MAGIC_OFFSET + MAGIC_LEN && (Magic(id) == MAGIC_23 || Magic(id) == MAGIC_26)
  }

  predicate UsesStableKeys(id: Bytes) {
    |id| == RESIDENT_LEN && Magic(id) == MAGIC_26
  }

  /** A derived resident ID: 42 bytes, marked as the seed of its key. */
  type ResidentId = id: Bytes | UsesStableKeys(id) witness [0, 0, 0, 0] + MAGIC_26 + seq(34, _ => 0)

  /** What a sealed credential holds, as far as it matters here. */
  datatype Cred = Cred(userId: Bytes, user: Bytes, curve: nat)

  /**
   `open` unseals a credential for a relying party, `derive` makes a resident ID of it, and
   `derivable` says whether a seed gives a key on a curve.
   */
  datatype Keys = Keys(
    open: (Bytes, Bytes) -> Option<Cred>,
    derive: Bytes -> ResidentId,
    derivable: (Bytes, nat) -> bool)

  /**
   A slot's file: a marker for a container of four objects, of which the public key may fail to read,
   or plain bytes.
   */
  datatype Record =
    | Container(rpHash: Bytes, clientId: Bytes, credential: Bytes, publicKey: Option<Bytes>)
    | Plain(bytes: Bytes)

  /** A loaded credential keeps its sealed form, and its resident ID if one is stored. */
  datatype Loaded = Loaded(cred: Cred, sealed: Bytes, residentId: Option<Bytes>)

  function RpHash(r: Record): Option<Bytes> {
    match r
    case Container(rpHash, _, _, _) => if |rpHash| == RP_HASH_LEN then Some(rpHash) else None
    case Plain(bytes) => if |bytes| >= RP_HASH_LEN then Some(bytes[..RP_HASH_LEN]) else None
  }

  predicate MatchesRp(r: Record, rp: Bytes) {
    RpHash(r) == Some(rp)
  }

  /** Plain bytes that carry a resident ID between the relying party and the sealed credential. */
  predicate Prefixed(bytes: Bytes) {
    |bytes| >= RP_HASH_LEN + RESIDENT_LEN && IsResident(bytes[RP_HASH_LEN..])
  }

  function ResidentIdOf(keys: Keys, r: Record): Option<Bytes> {
    match r
    case Container(_, clientId, _, _) => if |clientId| == RESIDENT_LEN then Some(clientId) else None
    case Plain(bytes) =>
      if Prefixed(bytes) then Some(bytes[RP_HASH_LEN..RP_HASH_LEN + RESIDENT_LEN])
      else if |bytes| > RP_HASH_LEN then Some(keys.derive(bytes[RP_HASH_LEN..]))
      else None
  }

  predicate MatchesId(keys: Keys, r: Record, id: Bytes) {
    |id| == RESIDENT_LEN && ResidentIdOf(keys, r) == Some(id)
  }

  function Open(keys: Keys, sealed: Bytes, rp: Bytes, residentId: Option<Bytes>): Option<Loaded> {
    match keys.open(sealed, rp)
    case Some(cred) => Some(Loaded(cred, sealed, residentId))
    case None => None
  }

  function Load(keys: Keys, r: Record, rp: Bytes): Option<Loaded> {
    match r
    case Container(_, clientId, credential, _) =>
      if !MatchesRp(r, rp) || |clientId| != RESIDENT_LEN then None else Open(keys, credential, rp, Some(clientId))
    case Plain(bytes) =>
      if |bytes| <= RP_HASH_LEN then None
      else if IsResident(bytes[RP_HASH_LEN..]) then
        if |bytes| < RP_HASH_LEN + RESIDENT_LEN then None
        else
          Open(keys, bytes[RP_HASH_LEN + RESIDENT_LEN..], rp, Some(bytes[RP_HASH_LEN..RP_HASH_LEN + RESIDENT_LEN]))
      else Open(keys, bytes[RP_HASH_LEN..], rp, None)
  }

  /** The seed of the key a loaded credential signs with. */
  function Seed(l: Loaded): Bytes {
    if l.residentId.Some? && UsesStableKeys(l.residentId.value) then l.residentId.value else l.sealed
  }

  /**
   A credential can be listed if it loads and so does its public key: a container keeps that
   ready, and is refused without it; for plain bytes the key is derived anew.
   */
  predicate Listable(keys: Keys, r: Record, rp: Bytes) {
    var l := Load(keys, r, rp);
    l.Some? && if r.Container? then r.publicKey.Some? else keys.derivable(Seed(l.value), l.value.cred.curve)
  }

  /** Rewriting the user information: the credential is sealed anew, everything else stays. */
  function Update(keys: Keys, r: Record, sealed: Bytes): Option<Record> {
    match r
    case Container(_, _, _, _) => Some(r.(credential := sealed))
    case Plain(bytes) =>
      var id := ResidentIdOf(keys, r);
      if RpHash(r).None? || id.None? then None else Some(Plain(bytes[..RP_HASH_LEN] + id.value + sealed))
  }

  /** Whatever the layout, an update leaves the relying party and the resident ID, and the result loads. */
  lemma UpdateKeepsIdentity(keys: Keys, r: Record, rp: Bytes, sealed: Bytes)
    requires MatchesRp(r, rp) && ResidentIdOf(keys, r).Some? && keys.open(sealed, rp).Some?
    ensures var u := Update(keys, r, sealed);
            u.Some? && MatchesRp(u.value, rp) && ResidentIdOf(keys, u.value) == ResidentIdOf(keys, r) &&
            Load(keys, u.value, rp) == Some(Loaded(keys.open(sealed, rp).value, sealed, ResidentIdOf(keys, r)))
  {
    if r.Plain? {
      if Prefixed(r.bytes) {
        SamePlace(r.bytes);
      }
      PrefixedParts(rp, ResidentIdOf(keys, r).value, sealed);
    }
  }

  /** The magic of a resident ID is found wherever the ID is read from. */
  lemma SamePlace(bytes: Bytes)
    requires |bytes| >= RP_HASH_LEN + RESIDENT_LEN
    ensures IsResident(bytes[RP_HASH_LEN..]) == IsResident(bytes[RP_HASH_LEN..RP_HASH_LEN + RESIDENT_LEN])
  {
  }

  lemma PrefixedParts(rp: Bytes, id: Bytes, sealed: Bytes)
    requires |rp| == RP_HASH_LEN && |id| == RESIDENT_LEN && IsResident(id)
    ensures var bytes := rp + id + sealed;
            Prefixed(bytes) && bytes[..RP_HASH_LEN] == rp && bytes[RP_HASH_LEN..RP_HASH_LEN + RESIDENT_LEN] == id &&
            bytes[RP_HASH_LEN + RESIDENT_LEN..] == sealed
  {
    var bytes := rp + id + sealed;
    assert bytes[RP_HASH_LEN..RP_HASH_LEN + RESIDENT_LEN] == id;
    SamePlace(bytes);
  }

  /** The resident ID is on record and is the seed of the key. */
  predicate SeedOnRecord(keys: Keys, r: Record) {
    (r.Container? || Prefixed(r.bytes)) && ResidentIdOf(keys, r).Some? && UsesStableKeys(ResidentIdOf(keys, r).value)
  }

  /**
   An update with a new sealed form keeps the signing key's seed exactly when the resident ID
   on record is the seed. A legacy record gains such an ID only by being updated, and its
   key changes with that.
   */
  lemma UpdateKeepsSeedIff(keys: Keys, r: Record, rp: Bytes, sealed: Bytes)
    requires Load(keys, r, rp).Some? && ResidentIdOf(keys, r).Some? && MatchesRp(r, rp)
    requires keys.open(sealed, rp).Some? && sealed != Load(keys, r, rp).value.sealed
    ensures var u := Update(keys, r, sealed);
            u.Some? && Load(keys, u.value, rp).Some? &&
            (Seed(Load(keys, u.value, rp).value) == Seed(Load(keys, r, rp).value) <==> SeedOnRecord(keys, r))
  {
    UpdateKeepsIdentity(keys, r, rp, sealed);
  }

  /** The bytes carry one of the two marks of a resident ID. */
  predicate BearsMark(bytes: Bytes) {
    |bytes| >= 8 && (bytes[4..8] == MAGIC_23 || bytes[4..8] == MAGIC_26)
  }

  /** Plain bytes with a resident ID of either kind load under it; the later kind is the seed of the key. */
  lemma PrefixedLoads(keys: Keys, rp: Bytes, id: Bytes, sealed: Bytes)
    requires |rp| == RP_HASH_LEN && |id| == RESIDENT_LEN && BearsMark(id)
    ensures var r := Plain(rp + id + sealed);
            MatchesRp(r, rp) && ResidentIdOf(keys, r) == Some(id) &&
            Load(keys, r, rp) == Open(keys, sealed, rp, Some(id)) &&
            (Load(keys, r, rp).Some? ==>
               Seed(Load(keys, r, rp).value) == if id[4..8] == MAGIC_26 then id else sealed)
  {
    PrefixedParts(rp, id, sealed);
  }

  /** A record that is marked but too short for a resident ID, and one with nothing in it, do not load. */
  lemma ShortFails(keys: Keys, rp: Bytes, rest: Bytes)
    requires |rp| == RP_HASH_LEN && |rest| < RESIDENT_LEN && (rest == [] || BearsMark(rest))
    ensures var r := Plain(rp + rest);
            MatchesRp(r, rp) && Load(keys, r, rp).None? && (rest == [] ==> ResidentIdOf(keys, r).None?)
  {
    assert (rp + rest)[RP_HASH_LEN..] == rest && (rp + rest)[..RP_HASH_LEN] == rp;
  }

  /** A container loads for the party in it, with an ID of the right length and a credential that opens. */
  lemma ContainerLoadsIff(keys: Keys, r: Record, rp: Bytes)
    requires r.Container?
    ensures Load(keys, r, rp).Some? <==>
      r.rpHash == rp && |rp| == RP_HASH_LEN && |r.clientId| == RESIDENT_LEN && keys.open(r.credential, rp).Some?
    ensures Load(keys, r, rp).Some? ==>
      Load(keys, r, rp).value == Loaded(keys.open(r.credential, rp).value, r.credential, Some(r.clientId))
  {
  }

  /** A legacy record loads its credential, provided the sealed form does not look like a resident ID. */
  lemma LegacyLoads(keys: Keys, rp: Bytes, sealed: Bytes)
    requires |rp| == RP_HASH_LEN && |sealed| > 0 && !BearsMark(sealed)
    ensures var r := Plain(rp + sealed);
            MatchesRp(r, rp) && ResidentIdOf(keys, r) == Some(keys.derive(sealed)) &&
            Load(keys, r, rp) == Open(keys, sealed, rp, None)
  {
    var bytes := rp + sealed;
    assert bytes[..RP_HASH_LEN] == rp && bytes[RP_HASH_LEN..] == sealed;
  }
}
