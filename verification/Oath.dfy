/**
 OATH credentials as sequences of tagged values: storing them with a sealed key and a
 padded moving factor, and computing with the factor moving on by one each time.
 */
module Oath {
  import opened Basics

  newtype byte = n: int | 0 <= n < 256

  type Value = seq<byte>

  const MAX_OATH_CRED: nat := 255
  const FACTOR_LEN: nat := 8
  const MAX_SIZE: nat := 0xFFFF
  const TAG_NAME: nat := 0x71
  const TAG_KEY: nat := 0x73
  const TAG_IMF: nat := 0x7A

  /** A sealed key starts with four letters and a version, and carries a nonce and a tag. */
  const MAGIC: Value := [0x4F, 0x41, 0x54, 0x48, 1]
  const SEAL_OVERHEAD: nat := 33

  datatype Field = Field(tag: nat, value: Value)

  type Record = seq<Field>

  type Creds = seq<Option<Record>>

  datatype Box = Box(seal: Value -> Value, unseal: Value -> Option<Value>)

  datatype Status = Ok | IncorrectParams | WrongData | WrongLength | FileFull | DataInvalid | ExecError | NotValidated

  // ---------- Tagged values ----------

  function Find(r: Record, tag: nat): Option<Value> {
    if r == [] then None else if r[0].tag == tag then Some(r[0].value) else Find(r[1..], tag)
  }

  /** Gives the first field with this tag a new value. */
  function SetFirst(r: Record, tag: nat, value: Value): Record {
    if r == [] then [] else if r[0].tag == tag then [Field(tag, value)] + r[1..]
    else [r[0]] + SetFirst(r[1..], tag, value)
  }

  function SetAll(r: Record, tag: nat, value: Value): Record {
    if r == [] then []
    else [if r[0].tag == tag then Field(tag, value) else r[0]] + SetAll(r[1..], tag, value)
  }

  predicate UniqueTags(r: Record) {
    forall i, j :: 0 <= i < j < |r| ==> r[i].tag != r[j].tag
  }

  // ---------- Keys ----------

  predicate Hotp(key: Value) {
    |key| > 0 && key[0] / 16 == 1
  }

  predicate KnownHash(key: Value) {
    |key| > 0 && 1 <= key[0] % 16 <= 3
  }

  predicate LooksSealed(key: Value) {
    |key| > SEAL_OVERHEAD && key[..|MAGIC|] == MAGIC
  }

  /** The first byte of a key: its type in the upper half, counted or timed, and its hash function in the lower. */
  lemma FirstByte(key: Value, kind: nat, hash: nat)
    requires |key| > 0 && kind < 16 && hash < 16 && key[0] as nat == 16 * kind + hash
    ensures Hotp(key) <==> kind == 1
    ensures KnownHash(key) <==> hash in {1, 2, 3}
  {
  }

  /** A sealed form has the mark, and behind it nonce, tag and at least one byte. */
  lemma LooksSealedIff(key: Value)
    ensures LooksSealed(key) <==> exists rest: Value :: key == MAGIC + rest && |rest| >= 12 + 16 + 1
  {
    if LooksSealed(key) {
      assert key == MAGIC + key[|MAGIC|..];
    }
  }

  /** A key stored unsealed by earlier firmware is used as it is. */
  lemma EarlierKeyOpens(box: Box, stored: Value)
    requires forall rest: Value :: stored == MAGIC + rest ==> |rest| < 12 + 16 + 1
    ensures OpenKey(box, stored) == Some(stored)
  {
    LooksSealedIff(stored);
  }

  /** What sealing promises: the result is recognized, opens to the original, and opening takes the overhead off. */
  ghost predicate Sound(box: Box) {
    (forall key :: |key| > 0 ==> LooksSealed(box.seal(key)) && box.unseal(box.seal(key)) == Some(key)) &&
    (forall stored :: box.unseal(stored).Some? ==> |box.unseal(stored).value| + SEAL_OVERHEAD == |stored|)
  }

  function OpenKey(box: Box, stored: Value): Option<Value> {
    if LooksSealed(stored) then box.unseal(stored) else Some(stored)
  }

  // ---------- The moving factor ----------

  function FromBytes(v: Value): nat {
    if v == [] then 0 else FromBytes(v[..|v| - 1]) * 256 + v[|v| - 1] as nat
  }

  function ToBytes(n: nat, len: nat): (v: Value)
    ensures |v| == len
  {
    if len == 0 then [] else ToBytes(n / 256, len - 1) + [(n % 256) as byte]
  }

  function Pow256(len: nat): nat {
    if len == 0 then 1 else 256 * Pow256(len - 1)
  }

  function Pad(n: nat): Value {
    seq(n, _ => 0)
  }

  // ---------- Storing ----------

  /** A counted credential gets an eight-byte factor: zero if it has none, padded in front if it is short. */
  function WithFactor(r: Record): Record {
    var factor := Find(r, TAG_IMF);
    if factor.None? then r + [Field(TAG_IMF, Pad(FACTOR_LEN))]
    else if |factor.value| < FACTOR_LEN then SetFirst(r, TAG_IMF, Pad(FACTOR_LEN - |factor.value|) + factor.value)
    else r
  }

  /** The key is sealed unless it looks as if it already were. */
  function Secured(box: Box, r: Record): Record {
    var key := Find(r, TAG_KEY);
    if key.None? || LooksSealed(key.value) then r else SetAll(r, TAG_KEY, box.seal(key.value))
  }

  function Prepared(box: Box, r: Record): Record {
    var key := Find(r, TAG_KEY);
    Secured(box, if key.Some? && Hotp(key.value) then WithFactor(r) else r)
  }

  predicate Named(slot: Option<Record>, name: Value) {
    slot.Some? && Find(slot.value, TAG_NAME) == Some(name)
  }

  function FirstNamed(creds: Creds, name: Value, i: nat): (r: Option<nat>)
    requires i <= |creds|
    ensures r.Some? ==> i <= r.value < |creds| && Named(creds[r.value], name)
    decreases |creds| - i
  {
    if i == |creds| then None else if Named(creds[i], name) then Some(i) else FirstNamed(creds, name, i + 1)
  }

  function FirstFree(creds: Creds, i: nat): (r: Option<nat>)
    requires i <= |creds|
    ensures r.Some? ==> i <= r.value < |creds| && creds[r.value].None?
    decreases |creds| - i
  {
    if i == |creds| then None else if creds[i].None? then Some(i) else FirstFree(creds, i + 1)
  }

  function PutStatus(r: Record, size: nat): Status {
    var key := Find(r, TAG_KEY);
    if key.None? then IncorrectParams
    else if |key.value| < 2 then WrongData
    else if Find(r, TAG_NAME).None? then IncorrectParams
    else if Hotp(key.value) && size > MAX_SIZE - 10 then WrongLength
    else Ok
  }

  /** `size` is the length of the request, which bounds what can be added to it. */
  function Put(box: Box, creds: Creds, r: Record, size: nat): (Creds, Status) {
    var status := PutStatus(r, size);
    if status != Ok then (creds, status)
    else
      var known := FirstNamed(creds, Find(r, TAG_NAME).value, 0);
      var place := if known.Some? then known else FirstFree(creds, 0);
      if place.None? then (creds, FileFull) else (creds[place.value := Some(Prepared(box, r))], Ok)
  }

  // ---------- Computing ----------

  /** What the keyed hash is applied to. */
  datatype Computed = Computed(key: Value, input: Value) | Failed(status: Status)

  /** The record after a counted computation: its factor, read from eight bytes, has moved on by one. */
  function Moved(r: Record): Record {
    var factor := Find(r, TAG_IMF);
    if factor.None? || |factor.value| < FACTOR_LEN then r
    else
      var next := (FromBytes(factor.value[..FACTOR_LEN]) + 1) % Pow256(FACTOR_LEN);
      SetFirst(r, TAG_IMF, ToBytes(next, FACTOR_LEN) + factor.value[FACTOR_LEN..])
  }

  function Compute(box: Box, creds: Creds, name: Value, challenge: Value): (Creds, Computed) {
    var place := FirstNamed(creds, name, 0);
    if place.None? then (creds, Failed(DataInvalid))
    else
      var r := creds[place.value].value;
      var stored := Find(r, TAG_KEY);
      if stored.None? then (creds, Failed(IncorrectParams))
      else
        var key := OpenKey(box, stored.value);
        if key.None? || |key.value| < 2 then (creds, Failed(ExecError))
        else if Hotp(key.value) && Find(r, TAG_IMF).None? then (creds, Failed(IncorrectParams))
        else if !KnownHash(key.value) then (creds, Failed(ExecError))
        else if Hotp(key.value) then
          (creds[place.value := Some(Moved(r))], Computed(key.value, Find(r, TAG_IMF).value))
        else (creds, Computed(key.value, challenge))
  }

  // ---------- Fields ----------

  function Tags(r: Record): seq<nat> {
    if r == [] then [] else [r[0].tag] + Tags(r[1..])
  }

  lemma {:induction false} SetFirstIs(r: Record, tag: nat, value: Value, other: nat)
    requires Find(r, tag).Some?
    ensures Find(SetFirst(r, tag, value), tag) == Some(value) && Tags(SetFirst(r, tag, value)) == Tags(r)
    ensures other != tag ==> Find(SetFirst(r, tag, value), other) == Find(r, other)
    decreases |r|
  {
    var s := SetFirst(r, tag, value);
    if r[0].tag == tag {
      assert s[1..] == r[1..];
    } else {
      SetFirstIs(r[1..], tag, value, other);
      assert s[1..] == SetFirst(r[1..], tag, value);
    }
  }

  lemma {:induction false} SetAllIs(r: Record, tag: nat, value: Value, other: nat)
    ensures Find(r, tag).Some? ==> Find(SetAll(r, tag, value), tag) == Some(value)
    ensures Tags(SetAll(r, tag, value)) == Tags(r)
    ensures other != tag ==> Find(SetAll(r, tag, value), other) == Find(r, other)
    decreases |r|
  {
    if r != [] {
      SetAllIs(r[1..], tag, value, other);
      assert SetAll(r, tag, value)[1..] == SetAll(r[1..], tag, value);
    }
  }

  lemma {:induction false} SetTwice(r: Record, tag: nat, v: Value, w: Value)
    ensures SetFirst(SetFirst(r, tag, v), tag, w) == SetFirst(r, tag, w)
    decreases |r|
  {
    if r != [] {
      var s := SetFirst(r, tag, v);
      if r[0].tag == tag {
        assert s[1..] == r[1..];
      } else {
        SetTwice(r[1..], tag, v, w);
        assert s[1..] == SetFirst(r[1..], tag, v);
      }
    }
  }

  lemma {:induction false} SetSame(r: Record, tag: nat, v: Value)
    requires Find(r, tag) == Some(v)
    ensures SetFirst(r, tag, v) == r
    decreases |r|
  {
    if r[0].tag != tag {
      SetSame(r[1..], tag, v);
    }
  }

  lemma {:induction false} AppendIs(r: Record, f: Field, tag: nat)
    ensures Find(r + [f], tag) ==
      (if Find(r, tag).Some? then Find(r, tag) else if f.tag == tag then Some(f.value) else None)
    ensures Tags(r + [f]) == Tags(r) + [f.tag]
    decreases |r|
  {
    if r == [] {
      assert r + [f] == [f];
      assert [f][1..] == [];
    } else {
      AppendIs(r[1..], f, tag);
      assert (r + [f])[1..] == r[1..] + [f];
    }
  }

  // ---------- Factors ----------

  lemma {:induction false} LeadingZeros(n: nat, v: Value)
    ensures FromBytes(Pad(n) + v) == FromBytes(v)
    decreases |v|, n
  {
    var w := Pad(n) + v;
    if v != [] {
      LeadingZeros(n, v[..|v| - 1]);
      assert w[..|w| - 1] == Pad(n) + v[..|v| - 1];
    } else if n > 0 {
      LeadingZeros(n - 1, v);
      assert w[..|w| - 1] == Pad(n - 1) + v;
    }
  }

  lemma {:induction false} BytesRoundTrip(n: nat, len: nat)
    requires n < Pow256(len)
    ensures FromBytes(ToBytes(n, len)) == n
    decreases len
  {
    if len > 0 {
      var v := ToBytes(n, len);
      assert v[..len - 1] == ToBytes(n / 256, len - 1);
      BytesRoundTrip(n / 256, len - 1);
    }
  }

  lemma {:induction false} FromBytesBound(v: Value)
    ensures FromBytes(v) < Pow256(|v|)
    decreases |v|
  {
    if v != [] {
      FromBytesBound(v[..|v| - 1]);
    }
  }

  lemma {:induction false} ToFromBytes(v: Value)
    ensures ToBytes(FromBytes(v), |v|) == v
    decreases |v|
  {
    if v != [] {
      ToFromBytes(v[..|v| - 1]);
    }
  }

  lemma ModStep(n: nat, p: nat)
    requires p > 0
    ensures (n % p + 1) % p == (n + 1) % p
  {
    var q, r := n / p, n % p;
    assert n == q * p + r;
    if r + 1 < p {
      ModUnique(n + 1, q, r + 1, p);
      ModUnique(r + 1, 0, r + 1, p);
    } else {
      assert n + 1 == (q + 1) * p;
      ModUnique(n + 1, q + 1, 0, p);
      ModUnique(r + 1, 1, 0, p);
    }
  }

  // ---------- What storing keeps ----------

  /** The factor of a stored record is eight bytes and stands for the same number; the other fields are untouched. */
  lemma FactorKept(r: Record, tag: nat)
    requires Find(r, TAG_IMF).Some? ==> |Find(r, TAG_IMF).value| <= FACTOR_LEN
    ensures var factor := Find(WithFactor(r), TAG_IMF);
            factor.Some? && |factor.value| == FACTOR_LEN &&
            FromBytes(factor.value) == (if Find(r, TAG_IMF).Some? then FromBytes(Find(r, TAG_IMF).value) else 0)
    ensures Tags(WithFactor(r)) == Tags(r) + (if Find(r, TAG_IMF).Some? then [] else [TAG_IMF])
    ensures tag != TAG_IMF ==> Find(WithFactor(r), tag) == Find(r, tag)
  {
    hide FromBytes;
    var factor := Find(r, TAG_IMF);
    if factor.None? {
      var field := Field(TAG_IMF, Pad(FACTOR_LEN));
      AppendIs(r, field, TAG_IMF);
      AppendIs(r, field, tag);
      LeadingZeros(FACTOR_LEN, []);
      assert Pad(FACTOR_LEN) + [] == Pad(FACTOR_LEN);
      EmptyIsZero();
    } else {
      LeadingZeros(FACTOR_LEN - |factor.value|, factor.value);
      SetFirstIs(r, TAG_IMF, Pad(FACTOR_LEN - |factor.value|) + factor.value, tag);
    }
  }

  lemma EmptyIsZero()
    ensures FromBytes([]) == 0
  {
  }

  lemma KeyOpensIff(box: Box, key: Value)
    requires Sound(box) && |key| > 0
    ensures OpenKey(box, if LooksSealed(key) then key else box.seal(key)) == Some(key) <==> !LooksSealed(key)
  {
  }

  lemma SecuredIs(box: Box, r: Record, tag: nat)
    requires Find(r, TAG_KEY).Some?
    ensures var key := Find(r, TAG_KEY).value;
            Find(Secured(box, r), TAG_KEY) == Some(if LooksSealed(key) then key else box.seal(key))
    ensures Tags(Secured(box, r)) == Tags(r) && (tag != TAG_KEY ==> Find(Secured(box, r), tag) == Find(r, tag))
  {
    SetAllIs(r, TAG_KEY, box.seal(Find(r, TAG_KEY).value), tag);
  }

  /** A key that looks sealed is neither a counted one nor of any hash function the application knows. */
  lemma SealedIsUseless(key: Value)
    requires LooksSealed(key)
    ensures !Hotp(key) && !KnownHash(key)
  {
    assert key[0] == key[..|MAGIC|][0];
  }

  /** Whatever its type, a stored key opens to the one that was sent if and only if that did not look sealed. */
  lemma StoredKeyOpensIff(box: Box, r: Record)
    requires Sound(box) && Find(r, TAG_KEY).Some? && |Find(r, TAG_KEY).value| > 0
    ensures var key := Find(r, TAG_KEY).value;
            Find(Prepared(box, r), TAG_KEY).Some? &&
            (OpenKey(box, Find(Prepared(box, r), TAG_KEY).value) == Some(key) <==> !LooksSealed(key))
  {
    hide Find, Secured, LooksSealed, OpenKey, Hotp, SetFirst;
    var key := Find(r, TAG_KEY).value;
    KeyOpensIff(box, key);
    SecuredIs(box, r, TAG_KEY);
    if Hotp(key) && WithFactor(r) != r {
      FactorKept(r, TAG_KEY);
      SecuredIs(box, WithFactor(r), TAG_KEY);
    }
  }

  /** Such a key passes the checks of a request and is stored, only to open to something else. */
  lemma SealedLookingKeyIsLost(box: Box, creds: Creds, name: Value, key: Value, size: nat)
    requires Sound(box) && LooksSealed(key) && exists i :: 0 <= i < |creds| && creds[i].None?
    ensures var r := [Field(TAG_NAME, name), Field(TAG_KEY, key)];
            Put(box, creds, r, size).1 == Ok && Find(Prepared(box, r), TAG_KEY).Some? &&
            OpenKey(box, Find(Prepared(box, r), TAG_KEY).value) != Some(key)
  {
    hide Prepared, FirstNamed, FirstFree, OpenKey, Sound, Hotp, KnownHash;
    var r := [Field(TAG_NAME, name), Field(TAG_KEY, key)];
    assert r[1..] == [r[1]];
    assert Find(r, TAG_KEY) == Some(key) && Find(r, TAG_NAME) == Some(name);
    SealedIsUseless(key);
    StoredKeyOpensIff(box, r);
    FirstFreeIs(creds, 0);
  }

  lemma SomeKeyLooksSealed()
    ensures LooksSealed(MAGIC + Pad(29))
  {
    assert (MAGIC + Pad(29))[..|MAGIC|] == MAGIC;
  }

  /**
   A stored counted credential: the tags in the order they came, the factor in eight bytes,
   every other field unchanged, and a key that opens to the original.
   */
  lemma HotpStored(box: Box, r: Record, tag: nat)
    requires Sound(box) && Find(r, TAG_KEY).Some? && Hotp(Find(r, TAG_KEY).value)
    requires Find(r, TAG_IMF).Some? ==> |Find(r, TAG_IMF).value| <= FACTOR_LEN
    ensures var (s, key) := (Prepared(box, r), Find(r, TAG_KEY).value);
            Tags(s) == Tags(r) + (if Find(r, TAG_IMF).Some? then [] else [TAG_IMF]) &&
            Find(s, TAG_IMF).Some? && |Find(s, TAG_IMF).value| == FACTOR_LEN &&
            FromBytes(Find(s, TAG_IMF).value) ==
              (if Find(r, TAG_IMF).Some? then FromBytes(Find(r, TAG_IMF).value) else 0) &&
            Find(s, TAG_KEY).Some? && OpenKey(box, Find(s, TAG_KEY).value) == Some(key) &&
            (tag != TAG_KEY && tag != TAG_IMF ==> Find(s, tag) == Find(r, tag))
  {
    hide FromBytes, WithFactor, Tags, Find, Secured, LooksSealed, OpenKey, Sound;
    var key := Find(r, TAG_KEY).value;
    if LooksSealed(key) {
      SealedIsUseless(key);
    }
    FactorKept(r, TAG_KEY);
    FactorKept(r, tag);
    var padded := WithFactor(r);
    SecuredIs(box, padded, TAG_IMF);
    SecuredIs(box, padded, tag);
    KeyOpensIff(box, key);
  }

  lemma {:induction false} UniqueFind(r: Record, i: nat)
    requires i < |r| && UniqueTags(r)
    ensures Find(r, r[i].tag) == Some(r[i].value)
    decreases |r|
  {
    if i > 0 {
      assert r[1..][i - 1] == r[i] && r[0].tag != r[i].tag;
      UniqueFind(r[1..], i - 1);
    }
  }

  lemma {:induction false} TagsAt(r: Record)
    ensures |Tags(r)| == |r| && forall i :: 0 <= i < |r| ==> Tags(r)[i] == r[i].tag
    decreases |r|
  {
    if r != [] {
      TagsAt(r[1..]);
    }
  }

  /** With no tag twice, the stored sequence is the one that came, field by field. */
  lemma HotpStoredFields(box: Box, r: Record, i: nat)
    requires Sound(box) && Find(r, TAG_KEY).Some? && Hotp(Find(r, TAG_KEY).value) && UniqueTags(r)
    requires Find(r, TAG_IMF).Some? ==> |Find(r, TAG_IMF).value| <= FACTOR_LEN
    requires i < |r|
    ensures var s := Prepared(box, r);
            |s| == |r| + (if Find(r, TAG_IMF).Some? then 0 else 1) &&
            s[i].tag == r[i].tag && (r[i].tag != TAG_KEY && r[i].tag != TAG_IMF ==> s[i] == r[i])
  {
    hide Prepared, Tags, FromBytes, OpenKey, LooksSealed, Sound, Hotp;
    var s := Prepared(box, r);
    HotpStored(box, r, r[i].tag);
    TagsAt(r);
    TagsAt(s);
    UniqueFind(r, i);
    forall j, k | 0 <= j < k < |s| ensures s[j].tag != s[k].tag {
      assert k == |r| ==> s[k].tag == TAG_IMF && Find(r, TAG_IMF).None?;
      if k == |r| {
        UniqueFind(r, j);
      }
    }
    UniqueFind(s, i);
  }

  // ---------- Counting ----------

  /** A factor as it is stored and used: eight bytes, modulo 2^64. */
  function Factor(n: nat): Value {
    ToBytes(n % Pow256(FACTOR_LEN), FACTOR_LEN)
  }

  /** The record of a counted credential after `k` computations. */
  function Advanced(r: Record, start: nat, k: nat): Record {
    SetFirst(r, TAG_IMF, Factor(start + k))
  }

  lemma PowPositive(len: nat)
    ensures Pow256(len) > 0
  {
  }

  lemma FactorLength(n: nat)
    ensures |Factor(n)| == FACTOR_LEN
  {
    PowPositive(FACTOR_LEN);
  }

  /** One more, modulo 2^64. */
  lemma NextFactor(n: nat)
    ensures Pow256(FACTOR_LEN) > 0
    ensures ToBytes((FromBytes(Factor(n)) + 1) % Pow256(FACTOR_LEN), FACTOR_LEN) == Factor(n + 1)
  {
    hide Pow256, FromBytes, ToBytes;
    PowPositive(FACTOR_LEN);
    BytesRoundTrip(n % Pow256(FACTOR_LEN), FACTOR_LEN);
    ModStep(n, Pow256(FACTOR_LEN));
  }

  lemma MovedAdvances(r: Record, start: nat, k: nat)
    requires Find(r, TAG_IMF).Some?
    ensures Find(Advanced(r, start, k), TAG_IMF) == Some(Factor(start + k))
    ensures Moved(Advanced(r, start, k)) == Advanced(r, start, k + 1)
  {
    hide Pow256, FromBytes, ToBytes, Factor, Find, SetFirst;
    var factor, next := Factor(start + k), Factor(start + k + 1);
    SetFirstIs(r, TAG_IMF, factor, TAG_IMF);
    FactorLength(start + k);
    NextFactor(start + k);
    assert factor[..FACTOR_LEN] == factor && factor[FACTOR_LEN..] == [];
    assert next + [] == next;
    SetTwice(r, TAG_IMF, factor, next);
  }

  function After(box: Box, creds: Creds, name: Value, challenges: seq<Value>): Creds {
    if challenges == [] then creds
    else Compute(box, After(box, creds, name, challenges[..|challenges| - 1]), name, challenges[|challenges| - 1]).0
  }

  /** A counted credential that can be computed with. */
  predicate Countable(box: Box, r: Record, key: Value) {
    Find(r, TAG_KEY).Some? && OpenKey(box, Find(r, TAG_KEY).value) == Some(key) &&
    |key| >= 2 && Hotp(key) && KnownHash(key) &&
    Find(r, TAG_IMF).Some? && |Find(r, TAG_IMF).value| == FACTOR_LEN
  }

  lemma {:induction false} FirstNamedIs(creds: Creds, name: Value, i: nat, place: nat)
    requires i <= place < |creds| && Named(creds[place], name)
    requires forall k :: i <= k < place ==> !Named(creds[k], name)
    ensures FirstNamed(creds, name, i) == Some(place)
    decreases place - i
  {
    if i < place {
      FirstNamedIs(creds, name, i + 1, place);
    }
  }

  lemma {:induction false} FirstNamedEarlier(creds: Creds, name: Value, i: nat)
    requires i <= |creds|
    ensures var place := FirstNamed(creds, name, i);
            forall k :: i <= k < (if place.Some? then place.value else |creds|) ==> !Named(creds[k], name)
    decreases |creds| - i
  {
    if i < |creds| {
      FirstNamedEarlier(creds, name, i + 1);
    }
  }

  /** Computing with an advanced record: the factor goes in, and the record moves on. */
  lemma ComputeAdvances(box: Box, creds: Creds, name: Value, place: nat, r: Record, key: Value, start: nat, k: nat,
                        challenge: Value)
    requires place < |creds| && FirstNamed(creds, name, 0) == Some(place) && creds[place] == Some(r)
    requires Countable(box, r, key)
    ensures Compute(box, creds[place := Some(Advanced(r, start, k))], name, challenge) ==
            (creds[place := Some(Advanced(r, start, k + 1))],
             Computed(key, Factor(start + k)))
  {
    hide Factor, Moved, Advanced, OpenKey;
    var now := creds[place := Some(Advanced(r, start, k))];
    AdvancedKeeps(r, start, k, TAG_KEY);
    AdvancedKeeps(r, start, k, TAG_NAME);
    MovedAdvances(r, start, k);
    FirstNamedEarlier(creds, name, 0);
    FirstNamedIs(now, name, 0, place);
    assert now[place := Some(Advanced(r, start, k + 1))] == creds[place := Some(Advanced(r, start, k + 1))];
  }

  lemma AdvancedKeeps(r: Record, start: nat, k: nat, tag: nat)
    requires Find(r, TAG_IMF).Some? && tag != TAG_IMF
    ensures Find(Advanced(r, start, k), tag) == Find(r, tag)
  {
    hide Factor;
    SetFirstIs(r, TAG_IMF, Factor(start + k), tag);
  }

  /**
   The k-th computation on a counted credential uses the stored factor plus k - 1, modulo
   2^64, and all of them together change nothing but the factor.
   */
  lemma {:induction false} KthComputation(box: Box, creds: Creds, name: Value, place: nat, r: Record, key: Value,
                                          challenges: seq<Value>, challenge: Value)
    requires place < |creds| && FirstNamed(creds, name, 0) == Some(place) && creds[place] == Some(r)
    requires Countable(box, r, key)
    ensures var start := FromBytes(Find(r, TAG_IMF).value);
            var now := After(box, creds, name, challenges);
            now == creds[place := Some(Advanced(r, start, |challenges|))] &&
            Compute(box, now, name, challenge).1 ==
              Computed(key, Factor(start + |challenges|))
    decreases |challenges|
  {
    hide Factor, FromBytes, Compute, Advanced, FirstNamed, Countable;
    var factor := FactorOf(box, r, key);
    var start := FromBytes(factor);
    var n := |challenges|;
    if challenges == [] {
      StartsAdvanced(r, factor);
      assert creds[place := Some(r)] == creds;
    } else {
      var before := challenges[..n - 1];
      KthComputation(box, creds, name, place, r, key, before, challenge);
      ComputeAdvances(box, creds, name, place, r, key, start, n - 1, challenges[n - 1]);
    }
    ComputeAdvances(box, creds, name, place, r, key, start, n, challenge);
  }

  lemma FactorOf(box: Box, r: Record, key: Value) returns (factor: Value)
    requires Countable(box, r, key)
    ensures Find(r, TAG_IMF) == Some(factor) && |factor| == FACTOR_LEN
  {
    factor := Find(r, TAG_IMF).value;
  }

  lemma StartsAdvanced(r: Record, factor: Value)
    requires Find(r, TAG_IMF) == Some(factor) && |factor| == FACTOR_LEN
    ensures Advanced(r, FromBytes(factor), 0) == r
  {
    hide Pow256, FromBytes, ToBytes;
    FromBytesBound(factor);
    ToFromBytes(factor);
    ModUnique(FromBytes(factor), 0, FromBytes(factor), Pow256(FACTOR_LEN));
    SetSame(r, TAG_IMF, factor);
  }

  // ---------- From storing to computing ----------

  lemma {:induction false} FirstFreeIs(creds: Creds, i: nat)
    requires i <= |creds|
    ensures FirstFree(creds, i).None? <==> forall k :: i <= k < |creds| ==> creds[k].Some?
    ensures FirstFree(creds, i).Some? ==> forall k :: i <= k < FirstFree(creds, i).value ==> creds[k].Some?
    decreases |creds| - i
  {
    if i < |creds| {
      FirstFreeIs(creds, i + 1);
    }
  }

  /** A request in order is refused exactly when its name is new and no slot is free. */
  lemma PutRefusedIff(box: Box, creds: Creds, r: Record, size: nat)
    requires PutStatus(r, size) == Ok
    ensures Put(box, creds, r, size).1 == FileFull <==>
            forall k :: 0 <= k < |creds| ==> creds[k].Some? && !Named(creds[k], Find(r, TAG_NAME).value)
    ensures Put(box, creds, r, size).1 != Ok ==> Put(box, creds, r, size).0 == creds
  {
    FirstNamedEarlier(creds, Find(r, TAG_NAME).value, 0);
    FirstFreeIs(creds, 0);
  }

  /**
   What was stored is what its name finds. It replaces the first credential of that name, else it takes
   the first free slot, and changes no other.
   */
  lemma PutIsFound(box: Box, creds: Creds, r: Record, size: nat) returns (place: nat)
    requires PutStatus(r, size) == Ok && Put(box, creds, r, size).1 == Ok
    requires Find(Prepared(box, r), TAG_NAME) == Find(r, TAG_NAME)
    ensures place < |creds| && Put(box, creds, r, size).0 == creds[place := Some(Prepared(box, r))]
    ensures FirstNamed(Put(box, creds, r, size).0, Find(r, TAG_NAME).value, 0) == Some(place)
    ensures var name := Find(r, TAG_NAME).value;
            if exists k :: 0 <= k < |creds| && creds[k].Some? && Find(creds[k].value, TAG_NAME) == Some(name)
            then creds[place].Some? && Find(creds[place].value, TAG_NAME) == Some(name)
            else creds[place].None? && forall k :: 0 <= k < place ==> creds[k].Some?
  {
    hide Prepared;
    var name := Find(r, TAG_NAME).value;
    var known := FirstNamed(creds, name, 0);
    place := if known.Some? then known.value else FirstFree(creds, 0).value;
    FirstNamedEarlier(creds, name, 0);
    FirstFreeIs(creds, 0);
    FirstNamedIs(Put(box, creds, r, size).0, name, 0, place);
  }

  /** What a request needs to be stored, and what is said of one that lacks it. */
  lemma PutAcceptedIff(box: Box, creds: Creds, r: Record, size: nat)
    ensures var (key, name) := (Find(r, TAG_KEY), Find(r, TAG_NAME));
            Put(box, creds, r, size).1 == Ok <==>
              key.Some? && |key.value| >= 2 && name.Some? && (Hotp(key.value) ==> size <= MAX_SIZE - 10) &&
              exists k :: 0 <= k < |creds| && (creds[k].Some? ==> Find(creds[k].value, TAG_NAME) == name)
    ensures Put(box, creds, r, size).1 != Ok ==> Put(box, creds, r, size).0 == creds
    ensures var (key, name) := (Find(r, TAG_KEY), Find(r, TAG_NAME));
            Put(box, creds, r, size).1 != Ok ==>
              Put(box, creds, r, size).1 ==
                if key.None? then IncorrectParams
                else if |key.value| < 2 then WrongData
                else if name.None? then IncorrectParams
                else if Hotp(key.value) && size > MAX_SIZE - 10 then WrongLength
                else FileFull
  {
    hide Prepared;
    if PutStatus(r, size) == Ok {
      PutRefusedIff(box, creds, r, size);
    }
  }

  /**
   From a stored request to its codes: with the factor it came with, at most eight bytes or
   none, the k-th computation uses that factor plus k - 1 modulo 2^64, under the original key.
   */
  lemma StoredFactorCounts(box: Box, creds: Creds, r: Record, size: nat, challenges: seq<Value>, challenge: Value)
    requires Sound(box) && PutStatus(r, size) == Ok && Put(box, creds, r, size).1 == Ok
    requires var key := Find(r, TAG_KEY).value; Hotp(key) && KnownHash(key)
    requires Find(r, TAG_IMF).Some? ==> |Find(r, TAG_IMF).value| <= FACTOR_LEN
    ensures var (name, key) := (Find(r, TAG_NAME).value, Find(r, TAG_KEY).value);
            var factor := if Find(r, TAG_IMF).Some? then FromBytes(Find(r, TAG_IMF).value) else 0;
            Compute(box, After(box, Put(box, creds, r, size).0, name, challenges), name, challenge).1 ==
              Computed(key, Factor(factor + |challenges|))
  {
    hide Prepared, Factor, FromBytes, OpenKey, Put, Compute, After, Sound;
    HotpStored(box, r, TAG_NAME);
    var place := PutIsFound(box, creds, r, size);
    KthComputation(box, Put(box, creds, r, size).0, Find(r, TAG_NAME).value, place, Prepared(box, r),
                   Find(r, TAG_KEY).value, challenges, challenge);
  }

  // ---------- Codes that are not counted ----------

  /** A key that is not counted is stored with every other field as it came, and opens to what was sent. */
  lemma PlainStored(box: Box, r: Record, tag: nat)
    requires Sound(box) && Find(r, TAG_KEY).Some? && tag != TAG_KEY
    requires var key := Find(r, TAG_KEY).value; |key| > 0 && !Hotp(key) && !LooksSealed(key)
    ensures var s := Prepared(box, r);
            Tags(s) == Tags(r) && Find(s, tag) == Find(r, tag) && Find(s, TAG_KEY).Some? &&
            OpenKey(box, Find(s, TAG_KEY).value) == Some(Find(r, TAG_KEY).value)
  {
    hide Tags, Hotp, LooksSealed;
    SecuredIs(box, r, tag);
    KeyOpensIff(box, Find(r, TAG_KEY).value);
  }

  /**
   From a stored request for a time-based code to its codes: each is the keyed hash of the challenge it
   was asked with, under the original key, and however many are computed nothing stored changes.
   */
  lemma {:induction false} TimedCodes(box: Box, creds: Creds, r: Record, size: nat, challenges: seq<Value>,
                                      challenge: Value)
    requires Sound(box) && PutStatus(r, size) == Ok && Put(box, creds, r, size).1 == Ok
    requires var key := Find(r, TAG_KEY).value; !Hotp(key) && KnownHash(key)
    ensures var (stored, name) := (Put(box, creds, r, size).0, Find(r, TAG_NAME).value);
            After(box, stored, name, challenges) == stored &&
            Compute(box, stored, name, challenge) == (stored, Computed(Find(r, TAG_KEY).value, challenge))
    decreases |challenges|
  {
    hide Prepared, OpenKey, Put, LooksSealed, Sound;
    if challenges != [] {
      TimedCodes(box, creds, r, size, challenges[..|challenges| - 1], challenges[|challenges| - 1]);
    }
    if LooksSealed(Find(r, TAG_KEY).value) {
      SealedIsUseless(Find(r, TAG_KEY).value);
    }
    PlainStored(box, r, TAG_NAME);
    var place := PutIsFound(box, creds, r, size);
  }

  /** A code is computed exactly when the name is known and its key opens and can be used; a refusal changes nothing. */
  lemma ComputedIff(box: Box, creds: Creds, name: Value, challenge: Value)
    ensures var (after, result) := Compute(box, creds, name, challenge);
            (result.Failed? ==> after == creds) &&
            (result == Failed(DataInvalid) <==>
               forall k :: 0 <= k < |creds| && creds[k].Some? ==> Find(creds[k].value, TAG_NAME) != Some(name)) &&
            (result.Computed? <==>
               exists place: nat :: FirstIs(creds, name, place) && Usable(box, creds[place].value)) &&
            (result == Failed(IncorrectParams) <==>
               exists place: nat :: FirstIs(creds, name, place) && Incomplete(box, creds[place].value)) &&
            (result.Failed? ==> result.status in {DataInvalid, IncorrectParams, ExecError})
  {
    hide OpenKey, Moved, Hotp, KnownHash;
    FirstNamedEarlier(creds, name, 0);
    forall place: nat | FirstIs(creds, name, place) ensures FirstNamed(creds, name, 0) == Some(place) {
      FirstNamedIs(creds, name, 0, place);
    }
    if FirstNamed(creds, name, 0).Some? {
      assert FirstIs(creds, name, FirstNamed(creds, name, 0).value);
    }
  }

  predicate FirstIs(creds: Creds, name: Value, place: nat) {
    place < |creds| && creds[place].Some? && Find(creds[place].value, TAG_NAME) == Some(name) &&
    forall k :: 0 <= k < place && creds[k].Some? ==> Find(creds[k].value, TAG_NAME) != Some(name)
  }

  /** The record's key opens, is long enough, names a known hash, and has a factor if it is counted. */
  predicate Usable(box: Box, r: Record) {
    Find(r, TAG_KEY).Some? &&
    var key := OpenKey(box, Find(r, TAG_KEY).value);
    key.Some? && |key.value| >= 2 && KnownHash(key.value) && (Hotp(key.value) ==> Find(r, TAG_IMF).Some?)
  }

  /** The record lacks its key, or the factor that its key, which opens, is counted with. */
  predicate Incomplete(box: Box, r: Record) {
    Find(r, TAG_KEY).None? ||
    (Find(r, TAG_IMF).None? &&
     var key := OpenKey(box, Find(r, TAG_KEY).value);
     key.Some? && |key.value| >= 2 && Hotp(key.value))
  }

  // ---------- The procedures ----------

  const BITMAP_SIZE: nat := (MAX_OATH_CRED + 7) / 8

  /** Bit `k` of a byte. */
  function Mask(k: nat): bv8 {
    if k == 0 then 1 else if k == 1 then 2 else if k == 2 then 4 else if k == 3 then 8
    else if k == 4 then 16 else if k == 5 then 32 else if k == 6 then 64 else 128
  }

  predicate IsSet(bits: seq<bv8>, i: nat)
    requires i / 8 < |bits|
  {
    bits[i / 8] & Mask(i % 8) != 0
  }

  function MarkSlot(bits: seq<bv8>, slot: nat): seq<bv8>
    requires slot / 8 < |bits|
  {
    bits[slot / 8 := bits[slot / 8] | Mask(slot % 8)]
  }

  lemma MarkSlotDef(bits: seq<bv8>, slot: nat)
    requires slot / 8 < |bits|
    ensures MarkSlot(bits, slot) == bits[slot / 8 := bits[slot / 8] | Mask(slot % 8)]
  {
  }

  lemma NothingSet(bits: seq<bv8>, i: nat)
    requires i / 8 < |bits| && bits[i / 8] == 0
    ensures !IsSet(bits, i)
  {
  }

  lemma MarkSlotIs(bits: seq<bv8>, slot: nat, i: nat)
    requires slot / 8 < |bits| && i / 8 < |bits|
    ensures IsSet(MarkSlot(bits, slot), i) <==> i == slot || IsSet(bits, i)
  {
    hide Mask;
    SetBit(bits[slot / 8], slot % 8, i % 8);
  }

  lemma SetBit(b: bv8, k: nat, j: nat)
    requires k < 8 && j < 8
    ensures (b | Mask(k)) & Mask(j) != 0 <==> k == j || b & Mask(j) != 0
  {
  }

  class Application {
    var creds: array<Option<Record>>
    var validated: bool

    ghost predicate Valid()
      reads this
    {
      creds.Length == MAX_OATH_CRED
    }

    constructor ()
      ensures Valid() && fresh(creds) && validated && forall k :: 0 <= k < creds.Length ==> creds[k].None?
    {
      creds := new Option<Record>[MAX_OATH_CRED](_ => None);
      validated := true;
    }

    method FindCred(name: Value) returns (place: Option<nat>)
      requires Valid()
      ensures place == FirstNamed(creds[..], name, 0)
    {
      for i := 0 to creds.Length
        invariant forall k :: 0 <= k < i ==> !Named(creds[k], name)
      {
        if creds[i].Some? && Find(creds[i].value, TAG_NAME) == Some(name) {
          FirstNamedIs(creds[..], name, 0, i);
          return Some(i);
        }
      }
      FirstNamedEarlier(creds[..], name, 0);
      place := None;
    }

    /** Marks the slots in use in a bitmap. */
    method UsedSlots() returns (used: array<bv8>)
      requires Valid()
      ensures fresh(used) && used.Length == BITMAP_SIZE
      ensures forall i :: 0 <= i < MAX_OATH_CRED ==> (IsSet(used[..], i) <==> creds[i].Some?)
    {
      hide Mask, IsSet, MarkSlot;
      used := new bv8[BITMAP_SIZE](_ => 0);
      forall i | 0 <= i < MAX_OATH_CRED ensures !IsSet(used[..], i) {
        NothingSet(used[..], i);
      }
      for slot := 0 to creds.Length
        invariant forall i :: 0 <= i < MAX_OATH_CRED ==> (IsSet(used[..], i) <==> i < slot && creds[i].Some?)
      {
        if creds[slot].Some? {
          ghost var before := used[..];
          used[slot / 8] := used[slot / 8] | Mask(slot % 8);
          MarkSlotDef(before, slot);
          assert used[..] == MarkSlot(before, slot);
          forall i | 0 <= i < MAX_OATH_CRED ensures IsSet(used[..], i) <==> i < slot + 1 && creds[i].Some? {
            MarkSlotIs(before, slot, i);
          }
        }
      }
    }

    method FreeSlot() returns (place: Option<nat>)
      requires Valid()
      ensures place == FirstFree(creds[..], 0)
    {
      var used := UsedSlots();
      FirstFreeIs(creds[..], 0);
      for i := 0 to MAX_OATH_CRED
        invariant forall k :: 0 <= k < i ==> creds[k].Some?
      {
        if !IsSet(used[..], i) {
          return Some(i);
        }
      }
      place := None;
    }

    /** Walks the fields, sealing the key on the way. */
    method Secure(box: Box, r: Record) returns (s: Record)
      ensures s == Secured(box, r)
    {
      var key := Find(r, TAG_KEY);
      if key.None? || LooksSealed(key.value) {
        return r;
      }
      var sealed := box.seal(key.value);
      s := [];
      for i := 0 to |r|
        invariant s + SetAll(r[i..], TAG_KEY, sealed) == SetAll(r, TAG_KEY, sealed)
      {
        assert r[i..][1..] == r[i + 1..];
        s := s + [if r[i].tag == TAG_KEY then Field(TAG_KEY, sealed) else r[i]];
      }
    }

    method PutCredential(box: Box, r: Record, size: nat) returns (status: Status)
      requires Valid()
      modifies creds
      ensures (creds[..], status) ==
        if validated then Put(box, old(creds[..]), r, size) else (old(creds[..]), NotValidated)
    {
      if !validated {
        return NotValidated;
      }
      var key := Find(r, TAG_KEY);
      if key.None? {
        return IncorrectParams;
      }
      if |key.value| < 2 {
        return WrongData;
      }
      var name := Find(r, TAG_NAME);
      if name.None? {
        return IncorrectParams;
      }
      var data := r;
      if Hotp(key.value) {
        if size > MAX_SIZE - 10 {
          return WrongLength;
        }
        data := WithFactor(r);
      }
      var place := FindCred(name.value);
      if place.None? {
        place := FreeSlot();
        if place.None? {
          return FileFull;
        }
      }
      var secured := Secure(box, data);
      creds[place.value] := Some(secured);
      status := Ok;
    }

    method Calculate(box: Box, name: Value, challenge: Value) returns (result: Computed)
      requires Valid()
      modifies creds
      ensures (creds[..], result) ==
        if validated then Compute(box, old(creds[..]), name, challenge) else (old(creds[..]), Failed(NotValidated))
    {
      if !validated {
        return Failed(NotValidated);
      }
      var place := FindCred(name);
      if place.None? {
        return Failed(DataInvalid);
      }
      var r := creds[place.value].value;
      var stored := Find(r, TAG_KEY);
      if stored.None? {
        return Failed(IncorrectParams);
      }
      var key := OpenKey(box, stored.value);
      if key.None? || |key.value| < 2 {
        return Failed(ExecError);
      }
      var input := challenge;
      var counted := Hotp(key.value);
      if counted {
        var factor := Find(r, TAG_IMF);
        if factor.None? {
          return Failed(IncorrectParams);
        }
        input := factor.value;
      }
      if !KnownHash(key.value) {
        return Failed(ExecError);
      }
      if counted {
        creds[place.value] := Some(Moved(r));
      }
      result := Computed(key.value, input);
    }
  }
}
