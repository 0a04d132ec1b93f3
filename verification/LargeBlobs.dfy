/**
 The large-blob array: written in fragments into a staging buffer and stored only when
 complete and intact, read back in ranges (section 6.10 of CTAP 2.1).
 */
module LargeBlobs {
  import opened Basics

  const MAX_FRAGMENT: nat := 960
  const MAX_LARGE_BLOB: nat := 2048
  const MIN_LARGE_BLOB: nat := 17
  const TRAILER: nat := 16

  datatype Status =
    | MissingParameter
    | InvalidParameter
    | InvalidLength
    | InvalidSequence
    | StorageFull
    | PuatRequired
    | PinAuthInvalid
    | IntegrityFailure

  datatype Authorization = Authorization(present: bool, protocol: nat, length: nat, macValid: bool, permitted: bool)

  datatype Request = Request(get: Option<nat>, put: Option<Bytes>, offset: Option<nat>, length: nat,
    auth: Authorization)

  datatype Response = Fragment(bytes: Bytes) | Done | Refused(status: Status)

  /** The staging buffer has a fixed size; what has been received is a prefix of it. */
  datatype Store = Store(stored: Bytes, expectedLength: nat, expectedNext: nat, staging: Bytes)

  type Digest = b: Bytes | |b| == TRAILER witness seq(TRAILER, _ => 0)

  /** The leading half of SHA-256, of which nothing is assumed. */
  type Hash = Bytes -> Digest

  // ---------- Requests ----------

  function AuthStatus(a: Authorization): Option<Status> {
    if !a.present then Some(PuatRequired)
    else if a.protocol == 0 then Some(MissingParameter)
    else if a.protocol != 1 && a.protocol != 2 then Some(InvalidParameter)
    else if a.length != (if a.protocol == 1 then 16 else 32) then Some(PinAuthInvalid)
    else if !a.macValid || !a.permitted then Some(PinAuthInvalid)
    else None
  }

  function ShapeStatus(r: Request): Option<Status> {
    if r.offset.None? || (r.get.None? && r.put.None?) || (r.get.Some? && r.put.Some?) then Some(InvalidParameter)
    else None
  }

  function ReadRange(s: Store, get: nat, offset: nat, length: nat): Response {
    if length != 0 then Refused(InvalidParameter)
    else if get > MAX_FRAGMENT then Refused(InvalidLength)
    else if offset > |s.stored| then Refused(InvalidParameter)
    else
      var rest := |s.stored| - offset;
      Fragment(s.stored[offset..offset + (if get <= rest then get else rest)])
  }

  /** The checks a write request meets before it can change what is expected. */
  function LengthStatus(fragment: Bytes, offset: nat, length: nat): Option<Status> {
    if |fragment| > MAX_FRAGMENT then Some(InvalidLength)
    else if offset == 0 then
      if length == 0 then Some(InvalidParameter)
      else if length > MAX_LARGE_BLOB then Some(StorageFull)
      else if length < MIN_LARGE_BLOB then Some(InvalidParameter)
      else None
    else if length != 0 then Some(InvalidParameter)
    else None
  }

  /** A request at offset zero that gets past its lengths starts over, whatever becomes of it. */
  function Begin(s: Store, offset: nat, length: nat): Store {
    if offset == 0 then s.(expectedLength := length, expectedNext := 0) else s
  }

  function WriteStatus(s: Store, fragment: Bytes, offset: nat, auth: Authorization): Option<Status> {
    if offset != s.expectedNext then Some(InvalidSequence)
    else if AuthStatus(auth).Some? then AuthStatus(auth)
    else if offset + |fragment| > s.expectedLength then Some(InvalidParameter)
    else None
  }

  predicate TrailerMatches(blob: Bytes, h: Hash)
    requires |blob| >= TRAILER
  {
    h(blob[..|blob| - TRAILER]) == blob[|blob| - TRAILER..]
  }

  /** An array that may be stored: its trailer matches, or it is too short to hold one entry. */
  predicate Intact(blob: Bytes, h: Hash) {
    MIN_LARGE_BLOB <= |blob| <= MAX_LARGE_BLOB && (|blob| == MIN_LARGE_BLOB || TrailerMatches(blob, h))
  }

  predicate Valid(s: Store) {
    |s.staging| == MAX_LARGE_BLOB && s.expectedNext <= s.expectedLength <= MAX_LARGE_BLOB &&
    (s.expectedLength == 0 || s.expectedLength >= MIN_LARGE_BLOB)
  }

  /** Takes an accepted fragment and, when it is the last, stores the array. */
  function Accept(s: Store, fragment: Bytes, h: Hash): (Store, Response)
    requires Valid(s) && s.expectedNext + |fragment| <= s.expectedLength && s.expectedLength > 0
  {
    var buffer := if s.expectedNext == 0 then Zeros(MAX_LARGE_BLOB) else s.staging;
    var next := s.expectedNext + |fragment|;
    var taken := s.(staging := Overlay(buffer, s.expectedNext, fragment), expectedNext := next);
    if next < s.expectedLength then (taken, Done)
    else
      var blob := taken.staging[..s.expectedLength];
      if |blob| > MIN_LARGE_BLOB && !TrailerMatches(blob, h) then (taken, Refused(IntegrityFailure))
      else (taken.(stored := blob), Done)
  }

  function WriteFragment(s: Store, fragment: Bytes, offset: nat, length: nat, auth: Authorization,
                         h: Hash): (Store, Response)
    requires Valid(s)
  {
    var lengths := LengthStatus(fragment, offset, length);
    if lengths.Some? then (s, Refused(lengths.value))
    else
      var begun := Begin(s, offset, length);
      var status := WriteStatus(begun, fragment, offset, auth);
      if status.Some? then (begun, Refused(status.value))
      else Accept(begun, fragment, h)
  }

  function Handle(s: Store, r: Request, h: Hash): (Store, Response)
    requires Valid(s)
  {
    var shape := ShapeStatus(r);
    if shape.Some? then (s, Refused(shape.value))
    else if r.get.Some? then (s, ReadRange(s, r.get.value, r.offset.value, r.length))
    else WriteFragment(s, r.put.value, r.offset.value, r.length, r.auth, h)
  }

  // ---------- What the staging buffer holds ----------

  function Flatten(fragments: seq<Bytes>): Bytes {
    if fragments == [] then [] else Flatten(fragments[..|fragments| - 1]) + fragments[|fragments| - 1]
  }

  function Play(s: Store, requests: seq<Request>, h: Hash): (t: Store)
    requires Valid(s)
    ensures Valid(t)
  {
    if requests == [] then s
    else
      HandleValid(Play(s, requests[..|requests| - 1], h), requests[|requests| - 1], h);
      Handle(Play(s, requests[..|requests| - 1], h), requests[|requests| - 1], h).0
  }

  lemma HandleValid(s: Store, r: Request, h: Hash)
    requires Valid(s)
    ensures Valid(Handle(s, r, h).0)
  {
  }

  predicate Writes(r: Request) {
    ShapeStatus(r).None? && r.put.Some?
  }

  predicate Begins(r: Request) {
    Writes(r) && LengthStatus(r.put.value, r.offset.value, r.length).None? && r.offset.value == 0
  }

  /** The fragment is taken into the staging buffer. */
  predicate Accepts(s: Store, r: Request) {
    Writes(r) && LengthStatus(r.put.value, r.offset.value, r.length).None? &&
    WriteStatus(Begin(s, r.offset.value, r.length), r.put.value, r.offset.value, r.auth).None?
  }

  /** The fragments accepted since the last request that started a transfer. */
  function Pending(s: Store, requests: seq<Request>, h: Hash): seq<Bytes>
    requires Valid(s)
  {
    if requests == [] then []
    else
      var before := requests[..|requests| - 1];
      var r := requests[|requests| - 1];
      (if Begins(r) then [] else Pending(s, before, h)) + (if Accepts(Play(s, before, h), r) then [r.put.value] else [])
  }

  lemma FlattenAppend(fragments: seq<Bytes>, fragment: Bytes)
    ensures Flatten(fragments + [fragment]) == Flatten(fragments) + fragment
  {
    assert (fragments + [fragment])[..|fragments|] == fragments;
  }

  /** Accepting a fragment puts it right behind what is there. */
  lemma AcceptAppends(s: Store, fragment: Bytes, h: Hash)
    requires Valid(s) && s.expectedNext + |fragment| <= s.expectedLength && s.expectedLength > 0
    ensures var t := Accept(s, fragment, h).0;
            t.expectedNext == s.expectedNext + |fragment| && t.expectedLength == s.expectedLength &&
            t.staging[..t.expectedNext] == s.staging[..s.expectedNext] + fragment
    ensures var t := Accept(s, fragment, h).0;
            t.stored == if t.expectedNext == t.expectedLength && Intact(t.staging[..t.expectedNext], h)
                        then t.staging[..t.expectedNext] else s.stored
  {
    var buffer := if s.expectedNext == 0 then Zeros(MAX_LARGE_BLOB) else s.staging;
    var t := Accept(s, fragment, h).0;
    assert buffer[..s.expectedNext] == s.staging[..s.expectedNext];
    assert t.staging[..t.expectedNext] == buffer[..s.expectedNext] + fragment;
  }

  /** What one request does to a buffer holding `held`. */
  lemma HandleHolds(s: Store, r: Request, h: Hash, held: Bytes)
    requires Valid(s) && s.staging[..s.expectedNext] == held
    ensures var (t, kept) := (Handle(s, r, h).0, if Begins(r) then [] else held);
            t.staging[..t.expectedNext] == (if Accepts(s, r) then kept + r.put.value else kept)
    ensures var t := Handle(s, r, h).0;
            t.stored != s.stored ==>
              Accepts(s, r) && t.stored == t.staging[..t.expectedNext] && t.expectedNext == t.expectedLength &&
                Intact(t.stored, h)
  {
    hide Accept, TrailerMatches;
    if Accepts(s, r) {
      AcceptAppends(Begin(s, r.offset.value, r.length), r.put.value, h);
    }
  }

  /** After any requests, accepted, rejected or started over, the staging prefix is what was accepted since. */
  lemma {:induction false} StagingIsPending(s: Store, requests: seq<Request>, h: Hash)
    requires Valid(s) && s.expectedNext == 0
    ensures var t := Play(s, requests, h); t.staging[..t.expectedNext] == Flatten(Pending(s, requests, h))
    decreases |requests|
  {
    hide Handle, Begins, Accepts;
    if requests != [] {
      var before := requests[..|requests| - 1];
      var r := requests[|requests| - 1];
      StagingIsPending(s, before, h);
      var held := Pending(s, before, h);
      HandleHolds(Play(s, before, h), r, h, Flatten(held));
      WritesHasFragment(Play(s, before, h), r);
      if Accepts(Play(s, before, h), r) {
        FlattenAppend(if Begins(r) then [] else held, r.put.value);
      } else {
        assert Pending(s, requests, h) == if Begins(r) then [] else held;
      }
    }
  }

  lemma WritesHasFragment(s: Store, r: Request)
    ensures Accepts(s, r) ==> r.put.Some?
  {
  }

  /** The stored array only ever changes to a complete, intact one: the pending fragments put together. */
  lemma StoredIsAssembled(s: Store, requests: seq<Request>, r: Request, h: Hash)
    requires Valid(s) && s.expectedNext == 0
    ensures var (t, u) := (Play(s, requests, h), Play(s, requests + [r], h));
            u.stored != t.stored ==>
              u.stored == Flatten(Pending(s, requests + [r], h)) && |u.stored| == u.expectedLength &&
                Intact(u.stored, h)
  {
    hide Handle, Pending, TrailerMatches;
    var all := requests + [r];
    assert all[..|all| - 1] == requests;
    var t := Play(s, requests, h);
    HandleHolds(t, r, h, t.staging[..t.expectedNext]);
    StagingIsPending(s, all, h);
  }

  // ---------- What it takes ----------

  /** A write's parameter: there, of a known protocol and its length, with a valid MAC, from a token that may write. */
  predicate Authorized(a: Authorization) {
    a.present && a.macValid && a.permitted && (a.protocol == 1 || a.protocol == 2) && a.length == 16 * a.protocol
  }

  /** A fragment of a permitted size that begins an array, announcing its length, or continues it where it ended. */
  predicate WellPlaced(s: Store, fragment: Bytes, offset: nat, length: nat) {
    |fragment| <= MAX_FRAGMENT &&
    if offset == 0 then MIN_LARGE_BLOB <= length <= MAX_LARGE_BLOB && |fragment| <= length
    else length == 0 && offset == s.expectedNext && offset + |fragment| <= s.expectedLength
  }

  /** A fragment is taken in exactly when it is well placed and its request authorized. */
  lemma TakenIff(s: Store, fragment: Bytes, offset: nat, length: nat, auth: Authorization, h: Hash)
    requires Valid(s)
    ensures var (t, response) := Handle(s, Request(None, Some(fragment), Some(offset), length, auth), h);
            (response in {Done, Refused(IntegrityFailure)} <==>
               WellPlaced(s, fragment, offset, length) && Authorized(auth)) &&
            (WellPlaced(s, fragment, offset, length) && Authorized(auth) ==>
               t.expectedNext == offset + |fragment| && t.staging[offset..t.expectedNext] == fragment &&
               (offset == 0 ==> t.staging[|fragment|..] == Zeros(MAX_LARGE_BLOB - |fragment|)))
  {
    hide TrailerMatches;
    if WellPlaced(s, fragment, offset, length) && Authorized(auth) {
      AcceptAppends(Begin(s, offset, length), fragment, h);
    }
  }

  /** The first thing that is wrong with a request, in the order in which the firmware looks. */
  lemma RefusedBecause(s: Store, r: Request, h: Hash)
    requires Valid(s) && Handle(s, r, h).1.Refused? && Authorized(r.auth)
    ensures Handle(s, r, h).1.status ==
      if r.offset.None? || (r.get.Some? <==> r.put.Some?) then InvalidParameter
      else if r.get.Some? then if r.length == 0 && r.get.value > MAX_FRAGMENT then InvalidLength else InvalidParameter
      else if |r.put.value| > MAX_FRAGMENT then InvalidLength
      else if r.offset.value == 0 && r.length > MAX_LARGE_BLOB then StorageFull
      else if if r.offset.value == 0 then r.length < MIN_LARGE_BLOB else r.length != 0 then InvalidParameter
      else if r.offset.value != 0 && r.offset.value != s.expectedNext then InvalidSequence
      else if WellPlaced(s, r.put.value, r.offset.value, r.length) then IntegrityFailure
      else InvalidParameter
  {
    hide TrailerMatches;
  }

  /** Without authorization nothing that is stored or staged changes, and what is well placed is told why. */
  lemma UnauthorizedRefused(s: Store, r: Request, h: Hash)
    requires Valid(s) && !Authorized(r.auth)
    ensures var (t, response) := Handle(s, r, h);
            t.stored == s.stored && t.staging == s.staging && response != Done &&
            (r.get.None? && r.put.Some? && r.offset.Some? &&
             WellPlaced(s, r.put.value, r.offset.value, r.length) ==>
               response == Refused(
                 if !r.auth.present then PuatRequired
                 else if r.auth.protocol == 0 then MissingParameter
                 else if r.auth.protocol > 2 then InvalidParameter
                 else PinAuthInvalid))
  {
  }

  /** Over all requests, whatever changes the array or the buffer is an authorized write. */
  lemma {:induction false} OnlyAuthorizedChange(s: Store, requests: seq<Request>, h: Hash)
    requires Valid(s) && forall i :: 0 <= i < |requests| ==> requests[i].put.None? || !Authorized(requests[i].auth)
    ensures var t := Play(s, requests, h); t.stored == s.stored && t.staging == s.staging
    decreases |requests|
  {
    hide Handle, Authorized;
    if requests != [] {
      var before := Play(s, requests[..|requests| - 1], h);
      OnlyAuthorizedChange(s, requests[..|requests| - 1], h);
      if requests[|requests| - 1].put.None? {
        ReadOnly(before, requests[|requests| - 1], h);
      } else {
        UnauthorizedRefused(before, requests[|requests| - 1], h);
      }
    }
  }

  /** A read changes nothing and gives the range asked for, as far as there is any. */
  lemma ReadOnly(s: Store, r: Request, h: Hash)
    requires Valid(s) && r.put.None?
    ensures var (t, response) := Handle(s, r, h);
            t == s &&
            (response.Fragment? <==>
               r.get.Some? && r.offset.Some? && r.length == 0 && r.get.value <= MAX_FRAGMENT &&
               r.offset.value <= |s.stored|) &&
            (response.Fragment? ==>
               response.bytes <= s.stored[r.offset.value..] &&
               |response.bytes| == Min(r.get.value, |s.stored| - r.offset.value))
  {
  }

  function Min(a: nat, b: nat): nat {
    if a <= b then a else b
  }

  lemma AuthorizedHasNoStatus(a: Authorization)
    ensures Authorized(a) <==> AuthStatus(a).None?
  {
  }

  // ---------- Round trip ----------

  predicate Sendable(fragments: seq<Bytes>) {
    forall i :: 0 <= i < |fragments| ==> 0 < |fragments[i]| <= MAX_FRAGMENT
  }

  /** The requests that send `fragments` one after the other; the first announces the total length. */
  function Upload(fragments: seq<Bytes>, total: nat, auth: Authorization): seq<Request> {
    if fragments == [] then []
    else
      var sent := fragments[..|fragments| - 1];
      Upload(sent, total, auth) +
      [Request(None, Some(fragments[|fragments| - 1]), Some(|Flatten(sent)|), if sent == [] then total else 0, auth)]
  }

  lemma {:induction false} UploadHolds(s: Store, fragments: seq<Bytes>, total: nat, auth: Authorization, h: Hash)
    requires Valid(s) && Authorized(auth) && MIN_LARGE_BLOB <= total <= MAX_LARGE_BLOB
    requires fragments != [] && Sendable(fragments) && |Flatten(fragments)| <= total
    ensures var (t, data) := (Play(s, Upload(fragments, total, auth), h), Flatten(fragments));
            t.expectedLength == total && t.expectedNext == |data| && t.staging[..t.expectedNext] == data &&
            t.stored == if |data| == total && Intact(data, h) then data else s.stored
    decreases |fragments|
  {
    hide Handle, Intact, Authorized;
    var sent := fragments[..|fragments| - 1];
    var fragment := fragments[|fragments| - 1];
    var requests := Upload(fragments, total, auth);
    var r := requests[|requests| - 1];
    assert requests[..|requests| - 1] == Upload(sent, total, auth);
    var before := Play(s, Upload(sent, total, auth), h);
    assert Flatten(fragments) == Flatten(sent) + fragment;
    if sent != [] {
      UploadHolds(s, sent, total, auth, h);
      SomeLength(sent);
    }
    NextFragment(before, fragment, |Flatten(sent)|, if sent == [] then total else 0, total, auth, h);
  }

  /** One authorized fragment at the place where it is expected. */
  lemma NextFragment(s: Store, fragment: Bytes, offset: nat, length: nat, total: nat, auth: Authorization, h: Hash)
    requires Valid(s) && Authorized(auth) && |fragment| <= MAX_FRAGMENT && offset + |fragment| <= total
    requires if offset == 0 then length == total && MIN_LARGE_BLOB <= total <= MAX_LARGE_BLOB
             else length == 0 && s.expectedNext == offset && s.expectedLength == total
    ensures var t := Handle(s, Request(None, Some(fragment), Some(offset), length, auth), h).0;
            var data := (if offset == 0 then [] else s.staging[..offset]) + fragment;
            t.expectedLength == total && t.expectedNext == offset + |fragment| && t.staging[..t.expectedNext] == data &&
            t.stored == if |data| == total && Intact(data, h) then data else s.stored
  {
    hide Accept, Intact, AuthStatus, Authorized;
    AuthorizedHasNoStatus(auth);
    AcceptAppends(Begin(s, offset, length), fragment, h);
  }

  lemma SomeLength(fragments: seq<Bytes>)
    requires fragments != [] && Sendable(fragments)
    ensures |Flatten(fragments)| > 0
  {
  }

  /** What a reader puts together from range requests that each start where the last one ended. */
  function Download(s: Store, gets: seq<nat>, auth: Authorization, h: Hash): (got: Bytes)
    requires Valid(s) && forall i :: 0 <= i < |gets| ==> gets[i] <= MAX_FRAGMENT
    ensures got <= s.stored
  {
    if gets == [] then []
    else
      var got := Download(s, gets[..|gets| - 1], auth, h);
      got + Handle(s, Request(Some(gets[|gets| - 1]), None, Some(|got|), 0, auth), h).1.bytes
  }

  function Sum(gets: seq<nat>): nat {
    if gets == [] then 0 else Sum(gets[..|gets| - 1]) + gets[|gets| - 1]
  }

  lemma {:induction false} DownloadLength(s: Store, gets: seq<nat>, auth: Authorization, h: Hash)
    requires Valid(s) && forall i :: 0 <= i < |gets| ==> gets[i] <= MAX_FRAGMENT
    ensures |Download(s, gets, auth, h)| == if Sum(gets) <= |s.stored| then Sum(gets) else |s.stored|
    decreases |gets|
  {
    if gets != [] {
      DownloadLength(s, gets[..|gets| - 1], auth, h);
    }
  }

  /** Whatever the array is cut into on the way in and on the way out, it comes back, provided it is intact. */
  lemma RoundTrip(s: Store, fragments: seq<Bytes>, auth: Authorization, gets: seq<nat>, reader: Authorization, h: Hash)
    requires Valid(s) && Authorized(auth) && Sendable(fragments) && Intact(Flatten(fragments), h)
    requires forall i :: 0 <= i < |gets| ==> gets[i] <= MAX_FRAGMENT
    requires Sum(gets) >= |Flatten(fragments)|
    ensures Download(Play(s, Upload(fragments, |Flatten(fragments)|, auth), h), gets, reader, h) == Flatten(fragments)
  {
    hide Play, Upload;
    UploadHolds(s, fragments, |Flatten(fragments)|, auth, h);
    DownloadLength(Play(s, Upload(fragments, |Flatten(fragments)|, auth), h), gets, reader, h);
  }

  /** And only then: a complete upload is stored exactly when its trailer says it is intact. */
  lemma StoredIffIntact(s: Store, fragments: seq<Bytes>, auth: Authorization, h: Hash)
    requires Valid(s) && Authorized(auth) && Sendable(fragments) && s.stored != Flatten(fragments)
    requires MIN_LARGE_BLOB <= |Flatten(fragments)| <= MAX_LARGE_BLOB
    ensures Play(s, Upload(fragments, |Flatten(fragments)|, auth), h).stored == Flatten(fragments) <==>
      Intact(Flatten(fragments), h)
  {
    hide Play, Upload, Intact;
    UploadHolds(s, fragments, |Flatten(fragments)|, auth, h);
  }

  /** An array longer than the shortest is stored exactly when its last sixteen bytes are the digest of the others. */
  lemma StoredIffSealed(s: Store, fragments: seq<Bytes>, auth: Authorization, h: Hash, body: Bytes, trailer: Bytes)
    requires Valid(s) && Authorized(auth) && Sendable(fragments) && s.stored != Flatten(fragments)
    requires Flatten(fragments) == body + trailer && |trailer| == TRAILER
    requires MIN_LARGE_BLOB < |body + trailer| <= MAX_LARGE_BLOB
    ensures Play(s, Upload(fragments, |body + trailer|, auth), h).stored == body + trailer <==> trailer == h(body)
  {
    hide Play, Upload, Flatten;
    StoredIffIntact(s, fragments, auth, h);
    assert (body + trailer)[..|body|] == body && (body + trailer)[|body|..] == trailer;
  }

  // ---------- The procedure ----------

  class Array {
    var stored: Bytes
    var expectedLength: nat
    var expectedNextOffset: nat
    var temp: array<bv8>

    ghost function State(): Store
      reads this, temp
    {
      Store(stored, expectedLength, expectedNextOffset, temp[..])
    }

    constructor (blob: Bytes)
      ensures fresh(temp) && Valid(State()) && State() == Store(blob, 0, 0, Zeros(MAX_LARGE_BLOB))
    {
      stored, expectedLength, expectedNextOffset := blob, 0, 0;
      temp := new bv8[MAX_LARGE_BLOB](_ => 0);
    }

    method ClearStaging()
      modifies temp
      ensures temp[..] == Zeros(temp.Length)
    {
      for i := 0 to temp.Length
        invariant forall k :: 0 <= k < i ==> temp[k] == 0
      {
        temp[i] := 0;
      }
    }

    method CopyIn(at: nat, fragment: Bytes)
      requires at + |fragment| <= temp.Length
      modifies temp
      ensures temp[..] == Overlay(old(temp[..]), at, fragment)
    {
      for i := 0 to |fragment|
        invariant temp[..at] == old(temp[..at])
        invariant forall k :: 0 <= k < i ==> temp[at + k] == fragment[k]
        invariant temp[at + |fragment|..] == old(temp[at + |fragment|..])
      {
        temp[at + i] := fragment[i];
      }
      assert temp[at..at + |fragment|] == fragment;
    }

    method CheckAuthorization(a: Authorization) returns (refusal: Option<Status>)
      ensures refusal == AuthStatus(a)
    {
      if !a.present {
        return Some(PuatRequired);
      }
      if a.protocol == 0 {
        return Some(MissingParameter);
      }
      if a.protocol != 1 && a.protocol != 2 {
        return Some(InvalidParameter);
      }
      if a.length != (if a.protocol == 1 then 16 else 32) {
        return Some(PinAuthInvalid);
      }
      if !a.macValid {
        return Some(PinAuthInvalid);
      }
      refusal := if a.permitted then None else Some(PinAuthInvalid);
    }

    /** Copies an accepted fragment in; when it is the last, checks the trailer and stores the array. */
    method TakeIn(fragment: Bytes, h: Hash) returns (response: Response)
      requires Valid(State()) && expectedNextOffset + |fragment| <= expectedLength && expectedLength > 0
      modifies this, temp
      ensures temp == old(temp) && (State(), response) == Accept(old(State()), fragment, h)
    {
      if expectedNextOffset == 0 {
        ClearStaging();
      }
      CopyIn(expectedNextOffset, fragment);
      expectedNextOffset := expectedNextOffset + |fragment|;
      if expectedNextOffset == expectedLength {
        var blob := temp[..expectedLength];
        if expectedLength > 17 && h(blob[..expectedLength - 16]) != blob[expectedLength - 16..] {
          return Refused(IntegrityFailure);
        }
        stored := blob;
      }
      response := Done;
    }

    method Write(fragment: Bytes, offset: nat, length: nat, auth: Authorization, h: Hash) returns (response: Response)
      requires Valid(State())
      modifies this, temp
      ensures temp == old(temp) && (State(), response) == WriteFragment(old(State()), fragment, offset, length, auth, h)
    {
      hide Accept, AuthStatus;
      if |fragment| > MAX_FRAGMENT {
        return Refused(InvalidLength);
      }
      if offset == 0 {
        if length == 0 {
          return Refused(InvalidParameter);
        }
        if length > MAX_LARGE_BLOB {
          return Refused(StorageFull);
        }
        if length < 17 {
          return Refused(InvalidParameter);
        }
        expectedLength := length;
        expectedNextOffset := 0;
      } else if length != 0 {
        return Refused(InvalidParameter);
      }
      if offset != expectedNextOffset {
        return Refused(InvalidSequence);
      }
      var refusal := CheckAuthorization(auth);
      if refusal.Some? {
        return Refused(refusal.value);
      }
      if offset + |fragment| > expectedLength {
        return Refused(InvalidParameter);
      }
      response := TakeIn(fragment, h);
    }

    method Request(r: Request, h: Hash) returns (response: Response)
      requires Valid(State())
      modifies this, temp
      ensures temp == old(temp) && (State(), response) == Handle(old(State()), r, h)
    {
      if r.offset.None? {
        return Refused(InvalidParameter);
      }
      if r.get.None? && r.put.None? {
        return Refused(InvalidParameter);
      }
      if r.get.Some? && r.put.Some? {
        return Refused(InvalidParameter);
      }
      if r.get.Some? {
        if r.length != 0 {
          return Refused(InvalidParameter);
        }
        if r.get.value > MAX_FRAGMENT {
          return Refused(InvalidLength);
        }
        if r.offset.value > |stored| {
          return Refused(InvalidParameter);
        }
        var available := |stored| - r.offset.value;
        var n := if r.get.value <= available then r.get.value else available;
        return Fragment(stored[r.offset.value..r.offset.value + n]);
      }
      response := Write(r.put.value, r.offset.value, r.length, r.auth, h);
    }
  }
}
