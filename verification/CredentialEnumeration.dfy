/**
 Stateful enumeration of the relying parties and of the credentials of one: what a begin and
 its follow-ups list, when that is everything, and whose credentials they are.
 */
module CredentialEnumeration {
  import opened Basics
  import opened CredentialRecords
  import opened CredentialTable

  // ---------- Cursors ----------

  /** `counter` is the place of the next item, `total` what the first request counted. */
  datatype Cursor = Cursor(counter: nat, total: nat)

  datatype Reply = Item(slot: nat, total: Option<nat>) | Nothing | Refused | Failed | Invalid

  /** The replies of a faultless enumeration of these places: each once and in order, the first with their number. */
  function Expected(places: seq<nat>): (r: seq<Reply>)
    ensures |r| == if places == [] then 1 else |places|
  {
    if places == [] then [Nothing]
    else
      seq(|places|, i requires 0 <= i < |places| => Item(places[i], if i == 0 then Some(|places|) else None))
  }

  /** How many follow-ups an enumeration of these places takes. */
  function FollowUps(places: seq<nat>): nat {
    if places == [] then 0 else |places| - 1
  }

  /** The marked places, in order. */
  function Marked(marks: seq<bool>): seq<nat> {
    if marks == [] then []
    else Marked(marks[..|marks| - 1]) + (if marks[|marks| - 1] then [|marks| - 1] else [])
  }

  function Begin(marks: seq<bool>): (Cursor, Reply) {
    var places := Marked(marks);
    if places == [] then (Cursor(1, 0), Nothing) else (Cursor(2, |places|), Item(places[0], Some(|places|)))
  }

  function Next(c: Cursor, marks: seq<bool>): (Cursor, Reply) {
    var places := Marked(marks);
    if c.counter > c.total then (c, Refused)
    else if 0 < c.counter <= |places| then (c.(counter := c.counter + 1), Item(places[c.counter - 1], None))
    else (c, Nothing)
  }

  function Follow(c: Cursor, marks: seq<bool>, n: nat): (r: (Cursor, seq<Reply>))
    ensures |r.1| == n
  {
    if n == 0 then (c, [])
    else
      var before := Follow(c, marks, n - 1);
      var step := Next(before.0, marks);
      (step.0, before.1 + [step.1])
  }

  /** The marked places are the right ones, each once and in order. */
  lemma {:induction false} MarkedIs(marks: seq<bool>)
    ensures forall i :: 0 <= i < |Marked(marks)| ==> Marked(marks)[i] < |marks| && marks[Marked(marks)[i]]
    ensures forall k :: 0 <= k < |marks| && marks[k] ==> k in Marked(marks)
    decreases |marks|
  {
    if marks != [] {
      MarkedIs(marks[..|marks| - 1]);
    }
  }

  lemma {:induction false} MarkedAscends(marks: seq<bool>)
    ensures forall i, j :: 0 <= i < j < |Marked(marks)| ==> Marked(marks)[i] < Marked(marks)[j]
    decreases |marks|
  {
    if marks != [] {
      MarkedAscends(marks[..|marks| - 1]);
      MarkedIs(marks[..|marks| - 1]);
    }
  }

  lemma {:induction false} FollowsInOrder(marks: seq<bool>, n: nat)
    requires 0 < |Marked(marks)| && n < |Marked(marks)|
    ensures var (c, replies) := Follow(Begin(marks).0, marks, n);
            c == Cursor(n + 2, |Marked(marks)|) &&
            forall i :: 0 <= i < n ==> replies[i] == Item(Marked(marks)[i + 1], None)
  {
    if n > 0 {
      FollowsInOrder(marks, n - 1);
    }
  }

  /**
   While nothing is stored or deleted, beginning and following up total - 1 times lists every
   marked place exactly once, in order, with the right total, and then nothing more.
   */
  lemma EnumerationIsExact(marks: seq<bool>)
    requires Begin(marks).1.Item?
    ensures var total := |Marked(marks)|;
            var (c, replies) := Follow(Begin(marks).0, marks, total - 1);
            Begin(marks).1 == Item(Marked(marks)[0], Some(total)) &&
            (forall i :: 0 <= i < total - 1 ==> replies[i] == Item(Marked(marks)[i + 1], None)) &&
            Next(c, marks) == (c, Refused)
  {
    FollowsInOrder(marks, |Marked(marks)| - 1);
  }

  // ---------- What is enumerated ----------

  predicate Live(slot: Option<RpRecord>) {
    slot.Some? && slot.value.count > 0
  }

  function LiveMarks(rps: seq<Option<RpRecord>>): (m: seq<bool>)
    ensures |m| == |rps|
  {
    seq(|rps|, i requires 0 <= i < |rps| => Live(rps[i]))
  }

  /** A party whose name does not open is passed over: the request fails and the cursor moves on. */
  function Naming(rps: seq<Option<RpRecord>>, step: (Cursor, Reply)): (Cursor, Reply) {
    if step.1.Item? && step.1.slot < |rps| && rps[step.1.slot].Some? && !rps[step.1.slot].value.named
    then (step.0, Failed)
    else step
  }

  function BeginRps(rps: seq<Option<RpRecord>>): (Cursor, Reply) {
    Naming(rps, Begin(LiveMarks(rps)))
  }

  function NextRps(rps: seq<Option<RpRecord>>, c: Cursor): (Cursor, Reply) {
    Naming(rps, Next(c, LiveMarks(rps)))
  }

  function FollowRps(rps: seq<Option<RpRecord>>, c: Cursor, n: nat): (r: (Cursor, seq<Reply>))
    ensures |r.1| == n
  {
    if n == 0 then (c, [])
    else
      var before := FollowRps(rps, c, n - 1);
      var step := NextRps(rps, before.0);
      (step.0, before.1 + [step.1])
  }

  /** The replies to a begin and as many follow-ups as there are further parties. */
  function EnumerateRps(rps: seq<Option<RpRecord>>): seq<Reply> {
    var begun := BeginRps(rps);
    [begun.1] + FollowRps(rps, begun.0, FollowUps(Marked(LiveMarks(rps)))).1
  }

  predicate AllNamed(rps: seq<Option<RpRecord>>) {
    forall j :: 0 <= j < |rps| && Live(rps[j]) ==> rps[j].value.named
  }

  lemma {:induction false} NamesFollow(rps: seq<Option<RpRecord>>, c: Cursor, n: nat)
    ensures var (d, replies) := FollowRps(rps, c, n);
            d == Follow(c, LiveMarks(rps), n).0 &&
            forall i :: 0 <= i < n ==> replies[i] == Naming(rps, (d, Follow(c, LiveMarks(rps), n).1[i])).1
    decreases n
  {
    hide Next, LiveMarks;
    if n > 0 {
      NamesFollow(rps, c, n - 1);
    }
  }

  /** The i-th request of the enumeration is about the i-th live party: it lists it, or fails on its name. */
  lemma RpEnumerated(rps: seq<Option<RpRecord>>, i: nat)
    requires i < |Marked(LiveMarks(rps))|
    ensures var places := Marked(LiveMarks(rps));
            |EnumerateRps(rps)| == |places| && places[i] < |rps| && Live(rps[places[i]]) &&
            EnumerateRps(rps)[i] == if rps[places[i]].value.named then Expected(places)[i] else Failed
  {
    hide Naming, Next, Follow, FollowRps, Marked;
    var marks := LiveMarks(rps);
    var places := Marked(marks);
    MarkedIs(marks);
    assert marks[places[i]];
    NamesFollow(rps, BeginRps(rps).0, FollowUps(places));
    FollowsInOrder(marks, FollowUps(places));
    SameCursor(rps);
    NamingIs(rps, FollowRps(rps, BeginRps(rps).0, FollowUps(places)).0, places[i], None);
    NamingIs(rps, Begin(marks).0, places[i], Some(|places|));
  }

  lemma SameCursor(rps: seq<Option<RpRecord>>)
    ensures BeginRps(rps).0 == Begin(LiveMarks(rps)).0
  {
    hide LiveMarks, Marked;
  }

  lemma NamingIs(rps: seq<Option<RpRecord>>, c: Cursor, slot: nat, total: Option<nat>)
    requires slot < |rps| && rps[slot].Some?
    ensures Naming(rps, (c, Item(slot, total))) == (c, if rps[slot].value.named then Item(slot, total) else Failed)
  {
  }

  /**
   Enumerating the relying parties lists every live one exactly once, in order and with the right
   total, if and only if the names of all of them open; a follow-up beyond that is refused either way.
   */
  lemma RpEnumerationExactIff(rps: seq<Option<RpRecord>>)
    ensures var places := Marked(LiveMarks(rps));
            (EnumerateRps(rps) == Expected(places) <==> AllNamed(rps)) &&
            var c := FollowRps(rps, BeginRps(rps).0, FollowUps(places)).0;
            NextRps(rps, c) == (c, Refused)
  {
    hide Marked, Naming, EnumerateRps;
    var marks := LiveMarks(rps);
    var places := Marked(marks);
    MarkedIs(marks);
    forall i | 0 <= i < |places|
      ensures places[i] < |rps| && Live(rps[places[i]]) && |EnumerateRps(rps)| == |places|
      ensures EnumerateRps(rps)[i] == if rps[places[i]].value.named then Expected(places)[i] else Failed
    {
      RpEnumerated(rps, i);
    }
    if places == [] {
      NoRps(rps);
    } else if EnumerateRps(rps) == Expected(places) {
      forall j | 0 <= j < |rps| && Live(rps[j]) ensures rps[j].value.named {
        assert marks[j];
        var i :| 0 <= i < |places| && places[i] == j;
        assert EnumerateRps(rps)[i] == Expected(places)[i];
      }
    }
    RpsEnd(rps);
  }

  lemma NoRps(rps: seq<Option<RpRecord>>)
    requires Marked(LiveMarks(rps)) == []
    ensures EnumerateRps(rps) == [Nothing] && AllNamed(rps)
  {
    var marks := LiveMarks(rps);
    MarkedIs(marks);
    forall j | 0 <= j < |rps| ensures !Live(rps[j]) {
      assert marks[j] <==> Live(rps[j]);
    }
  }

  lemma RpsEnd(rps: seq<Option<RpRecord>>)
    ensures var c := FollowRps(rps, BeginRps(rps).0, FollowUps(Marked(LiveMarks(rps)))).0;
            NextRps(rps, c) == (c, Refused)
  {
    hide Marked, LiveMarks;
    var marks := LiveMarks(rps);
    SameCursor(rps);
    NamesFollow(rps, BeginRps(rps).0, FollowUps(Marked(marks)));
    if Marked(marks) != [] {
      EnumerationIsExact(marks);
    }
  }

  function RpCredMarks(creds: seq<Option<Record>>, rp: Bytes): (m: seq<bool>)
    ensures |m| == |creds|
  {
    seq(|creds|, i requires 0 <= i < |creds| => Belongs(creds[i], rp))
  }

  lemma {:induction false} TallyIsLength(creds: seq<Option<Record>>, rp: Bytes)
    ensures |Marked(RpCredMarks(creds, rp))| == Tally(creds, rp)
    decreases |creds|
  {
    if creds != [] {
      var last := |creds| - 1;
      TallyIsLength(creds[..last], rp);
      assert RpCredMarks(creds, rp)[..last] == RpCredMarks(creds[..last], rp);
    }
  }

  /** Slot `i` is listed under the relying party with index record `j`. */
  predicate ListedUnder(t: Table, i: nat, j: nat) {
    j in Marked(LiveMarks(t.rps)) && j < |t.rps| && t.rps[j].Some? &&
      i in Marked(RpCredMarks(t.creds, t.rps[j].value.hash))
  }

  /**
   Enumerating all relying parties, and the credentials of each, lists every credential under
   exactly one of them, and each total is the count on record.
   */
  lemma EnumerationPartitions(t: Table)
    requires IndexAgrees(t)
    ensures forall j :: j in Marked(LiveMarks(t.rps)) ==>
      j < |t.rps| && t.rps[j].Some? && |Marked(RpCredMarks(t.creds, t.rps[j].value.hash))| == t.rps[j].value.count
    ensures forall i :: 0 <= i < |t.creds| && t.creds[i].Some? ==> exists j: nat :: ListedUnder(t, i, j)
    ensures forall i: nat, j: nat, k: nat :: ListedUnder(t, i, j) && ListedUnder(t, i, k) ==> j == k
    ensures forall i: nat, j: nat :: ListedUnder(t, i, j) ==> i < |t.creds| && t.creds[i].Some?
  {
    var live := LiveMarks(t.rps);
    MarkedIs(live);
    forall j | j in Marked(live)
      ensures j < |t.rps| && t.rps[j].Some? &&
        |Marked(RpCredMarks(t.creds, t.rps[j].value.hash))| == t.rps[j].value.count
    {
      assert live[j];
      TallyIsLength(t.creds, t.rps[j].value.hash);
    }
    forall i | 0 <= i < |t.creds| && t.creds[i].Some? ensures exists j: nat :: ListedUnder(t, i, j) {
      var hash := RpHash(t.creds[i].value).value;
      var j :| 0 <= j < |t.rps| && Counts(t.rps[j], hash);
      assert live[j];
      MarkedIs(RpCredMarks(t.creds, hash));
      assert RpCredMarks(t.creds, hash)[i];
      assert ListedUnder(t, i, j);
    }
    forall i: nat, j: nat | ListedUnder(t, i, j) ensures Belonging(t, i, j) {
      MarkedIs(RpCredMarks(t.creds, t.rps[j].value.hash));
      assert RpCredMarks(t.creds, t.rps[j].value.hash)[i];
    }
    forall i: nat, j: nat, k: nat | ListedUnder(t, i, j) && ListedUnder(t, i, k) ensures j == k {
      assert Belonging(t, i, j) && Belonging(t, i, k);
    }
    forall i: nat, j: nat | ListedUnder(t, i, j) ensures i < |t.creds| && t.creds[i].Some? {
      assert Belonging(t, i, j);
    }
  }

  predicate Belonging(t: Table, i: nat, j: nat) {
    i < |t.creds| && j < |t.rps| && t.rps[j].Some? && Belongs(t.creds[i], t.rps[j].value.hash)
  }

  /**
   A relying party's 256th credential makes its count zero: enumerating the relying parties no longer lists
   it, although it has more credentials than ever.
   */
  lemma OutgrownIsHidden(t: Table, i: nat, record: Record, rp: Bytes, names: bool)
    requires IndexAgrees(t) && i < MAX_RESIDENT && t.creds[i].None? && MatchesRp(record, rp)
    requires Tally(t.creds, rp) == BYTE_SPAN - 1
    ensures var rps := Enter(t.rps, rp, names);
            rps.Some? && Tally(t.creds[i := Some(record)], rp) == BYTE_SPAN &&
            forall j :: j in Marked(LiveMarks(rps.value)) ==>
              j < |rps.value| && rps.value[j].Some? && rps.value[j].value.hash != rp
  {
    if !HasEntry(t.rps, rp) {
      UnenteredHasNone(t, rp);
    }
    KnownIff(t.rps, rp);
    TallyUpdate(t.creds, i, Some(record), rp);
    var rps := Enter(t.rps, rp, names).value;
    MarkedIs(LiveMarks(rps));
    forall j | j in Marked(LiveMarks(rps)) ensures j < |rps| && rps[j].Some? && rps[j].value.hash != rp {
      assert LiveMarks(rps)[j];
    }
  }

  // ---------- Credentials must load, and their keys, to be listed ----------

  /** A credential that cannot be listed is refused, and the cursor stays on it. */
  function Loading(keys: Keys, creds: seq<Option<Record>>, rp: Bytes, stuck: Cursor,
                   step: (Cursor, Reply)): (Cursor, Reply) {
    if step.1.Item? && step.1.slot < |creds| && creds[step.1.slot].Some? &&
      !Listable(keys, creds[step.1.slot].value, rp)
    then (stuck, Refused)
    else step
  }

  function BeginCreds(keys: Keys, creds: seq<Option<Record>>, rp: Bytes): (Cursor, Reply) {
    var marks := RpCredMarks(creds, rp);
    Loading(keys, creds, rp, Cursor(1, |Marked(marks)|), Begin(marks))
  }

  function NextCreds(keys: Keys, creds: seq<Option<Record>>, c: Cursor, rp: Bytes): (Cursor, Reply) {
    Loading(keys, creds, rp, c, Next(c, RpCredMarks(creds, rp)))
  }

  predicate AllListable(keys: Keys, creds: seq<Option<Record>>, rp: Bytes) {
    forall i :: 0 <= i < |creds| && Belongs(creds[i], rp) ==> Listable(keys, creds[i].value, rp)
  }

  /** Where every credential can be listed, credentials are listed like relying parties. */
  lemma LoadingListsAll(keys: Keys, creds: seq<Option<Record>>, c: Cursor, rp: Bytes)
    requires AllListable(keys, creds, rp)
    ensures BeginCreds(keys, creds, rp) == Begin(RpCredMarks(creds, rp))
    ensures NextCreds(keys, creds, c, rp) == Next(c, RpCredMarks(creds, rp))
  {
    MarkedIs(RpCredMarks(creds, rp));
  }

  /** One request: a credential that cannot be listed, and only that, is refused and keeps the cursor where it is. */
  lemma UnloadableBlocks(keys: Keys, creds: seq<Option<Record>>, c: Cursor, rp: Bytes)
    requires 0 < c.counter <= c.total == |Marked(RpCredMarks(creds, rp))|
    ensures var (next, reply) := NextCreds(keys, creds, c, rp);
            var slot := Marked(RpCredMarks(creds, rp))[c.counter - 1];
            slot < |creds| && creds[slot].Some? &&
            (next == c && reply == Refused <==> !Listable(keys, creds[slot].value, rp)) &&
            (Listable(keys, creds[slot].value, rp) ==>
              next == c.(counter := c.counter + 1) && reply == Item(slot, None))
  {
    MarkedIs(RpCredMarks(creds, rp));
    assert RpCredMarks(creds, rp)[Marked(RpCredMarks(creds, rp))[c.counter - 1]];
  }

  // ---------- Whose credentials a follow-up lists ----------

  /** The cursor, and the party that follow-ups are about: the last one of which the first of several was listed. */
  datatype Listing = Listing(cursor: Cursor, hash: Bytes)

  /** A hash of the wrong length is turned down before anything is reset. */
  function Ask(keys: Keys, creds: seq<Option<Record>>, l: Listing, rp: Bytes): (Listing, Reply) {
    if |rp| != RP_HASH_LEN then (l, Invalid)
    else
      var (c, reply) := BeginCreds(keys, creds, rp);
      (Listing(c, if reply.Item? && c.counter <= c.total then rp else l.hash), reply)
  }

  function More(keys: Keys, creds: seq<Option<Record>>, l: Listing): (Listing, Reply) {
    var (c, reply) := NextCreds(keys, creds, l.cursor, l.hash);
    (l.(cursor := c), reply)
  }

  function MoreAll(keys: Keys, creds: seq<Option<Record>>, l: Listing, n: nat): (r: (Listing, seq<Reply>))
    ensures |r.1| == n && r.0.hash == l.hash
  {
    if n == 0 then (l, [])
    else
      var before := MoreAll(keys, creds, l, n - 1);
      var step := More(keys, creds, before.0);
      (step.0, before.1 + [step.1])
  }

  function Places(creds: seq<Option<Record>>, rp: Bytes): seq<nat> {
    Marked(RpCredMarks(creds, rp))
  }

  /** The replies to a begin for `rp` and as many follow-ups as it has further credentials. */
  function Enumerate(keys: Keys, creds: seq<Option<Record>>, l: Listing, rp: Bytes): (r: seq<Reply>)
    ensures |r| == FollowUps(Places(creds, rp)) + 1
  {
    var begun := Ask(keys, creds, l, rp);
    [begun.1] + MoreAll(keys, creds, begun.0, FollowUps(Places(creds, rp))).1
  }

  lemma PlacesBelong(creds: seq<Option<Record>>, rp: Bytes, i: nat)
    requires i < |Places(creds, rp)|
    ensures Places(creds, rp)[i] < |creds| && Belongs(creds[Places(creds, rp)[i]], rp)
  {
    var marks := RpCredMarks(creds, rp);
    MarkedIs(marks);
    assert marks[Marked(marks)[i]];
  }

  predicate ListableAt(keys: Keys, creds: seq<Option<Record>>, rp: Bytes, i: nat)
    requires i < |Places(creds, rp)|
  {
    PlacesBelong(creds, rp, i);
    Listable(keys, creds[Places(creds, rp)[i]].value, rp)
  }

  lemma AskIs(keys: Keys, creds: seq<Option<Record>>, l: Listing, rp: Bytes)
    requires |rp| == RP_HASH_LEN
    ensures var places := Places(creds, rp);
            Ask(keys, creds, l, rp) ==
              if places == [] then (l.(cursor := Cursor(1, 0)), Nothing)
              else if !ListableAt(keys, creds, rp, 0) then (l.(cursor := Cursor(1, |places|)), Refused)
              else
                (Listing(Cursor(2, |places|), if |places| > 1 then rp else l.hash), Item(places[0], Some(|places|)))
  {
    hide Listable, RpCredMarks, Marked;
    if Places(creds, rp) != [] {
      PlacesBelong(creds, rp, 0);
    }
  }

  lemma MoreIs(keys: Keys, creds: seq<Option<Record>>, l: Listing)
    requires 0 < l.cursor.counter <= l.cursor.total && l.cursor.counter <= |Places(creds, l.hash)|
    ensures var i := l.cursor.counter - 1;
            More(keys, creds, l) ==
              if ListableAt(keys, creds, l.hash, i)
              then (l.(cursor := l.cursor.(counter := i + 2)), Item(Places(creds, l.hash)[i], None))
              else (l, Refused)
  {
    hide Listable, RpCredMarks, Marked;
    PlacesBelong(creds, l.hash, l.cursor.counter - 1);
  }

  /** A place that cannot be listed stays refused however often it is asked for. */
  lemma {:induction false} RefusedForGood(keys: Keys, creds: seq<Option<Record>>, l: Listing, n: nat)
    requires 0 < l.cursor.counter <= l.cursor.total && l.cursor.counter <= |Places(creds, l.hash)|
    requires !ListableAt(keys, creds, l.hash, l.cursor.counter - 1)
    ensures MoreAll(keys, creds, l, n).0 == l
    ensures forall i :: 0 <= i < n ==> MoreAll(keys, creds, l, n).1[i] == Refused
    decreases n
  {
    hide Places, ListableAt, More;
    MoreIs(keys, creds, l);
    if n > 0 {
      RefusedForGood(keys, creds, l, n - 1);
    }
  }

  /** While the places can be listed, follow-ups list them one by one. */
  lemma {:induction false} ListedSoFar(keys: Keys, creds: seq<Option<Record>>, l: Listing, n: nat)
    requires l.cursor == Cursor(2, |Places(creds, l.hash)|) && n < |Places(creds, l.hash)|
    requires forall i: nat :: 0 < i <= n ==> ListableAt(keys, creds, l.hash, i)
    ensures var (m, replies) := MoreAll(keys, creds, l, n);
            m == l.(cursor := Cursor(n + 2, |Places(creds, l.hash)|)) &&
            forall i :: 0 <= i < n ==> replies[i] == Item(Places(creds, l.hash)[i + 1], None)
    decreases n
  {
    hide Places, ListableAt, More;
    if n > 0 {
      ListedSoFar(keys, creds, l, n - 1);
      MoreIs(keys, creds, MoreAll(keys, creds, l, n - 1).0);
    }
  }

  lemma {:induction false} MoreAllSplit(keys: Keys, creds: seq<Option<Record>>, l: Listing, n: nat, k: nat)
    ensures var (m, first) := MoreAll(keys, creds, l, n);
            var (last, rest) := MoreAll(keys, creds, m, k);
            MoreAll(keys, creds, l, n + k) == (last, first + rest)
    decreases k
  {
    hide More;
    if k > 0 {
      MoreAllSplit(keys, creds, l, n, k - 1);
      var (m, first) := MoreAll(keys, creds, l, n);
      var (before, rest) := MoreAll(keys, creds, m, k - 1);
      var (_, reply) := More(keys, creds, before);
      assert first + (rest + [reply]) == (first + rest) + [reply];
      assert n + k - 1 == n + (k - 1);
    } else {
      assert MoreAll(keys, creds, l, n).1 + [] == MoreAll(keys, creds, l, n).1;
    }
  }

  /**
   If the first credential of a party that cannot be listed is not its very first, the enumeration
   lists all before it and is then refused for good, however long the client goes on.
   */
  lemma EnumerationStops(keys: Keys, creds: seq<Option<Record>>, l: Listing, rp: Bytes, k: nat, n: nat)
    requires |rp| == RP_HASH_LEN && 0 < k < |Places(creds, rp)| && !ListableAt(keys, creds, rp, k)
    requires forall i: nat :: i < k ==> ListableAt(keys, creds, rp, i)
    ensures var places := Places(creds, rp);
            var begun := Ask(keys, creds, l, rp);
            var (m, replies) := MoreAll(keys, creds, begun.0, k - 1 + n);
            begun.1 == Expected(places)[0] && m.hash == rp &&
            forall i :: 0 <= i < k - 1 + n ==>
              replies[i] == if i < k - 1 then Expected(places)[i + 1] else Refused
  {
    hide Places, ListableAt, More, Ask, MoreAll;
    AskIs(keys, creds, l, rp);
    var begun := Ask(keys, creds, l, rp).0;
    ListedSoFar(keys, creds, begun, k - 1);
    RefusedForGood(keys, creds, MoreAll(keys, creds, begun, k - 1).0, n);
    MoreAllSplit(keys, creds, begun, k - 1, n);
  }

  lemma AllListableAt(keys: Keys, creds: seq<Option<Record>>, rp: Bytes)
    ensures AllListable(keys, creds, rp) <==>
      forall i: nat :: i < |Places(creds, rp)| ==> ListableAt(keys, creds, rp, i)
  {
    hide Listable;
    var marks := RpCredMarks(creds, rp);
    var places := Places(creds, rp);
    MarkedIs(marks);
    if forall i: nat :: i < |places| ==> ListableAt(keys, creds, rp, i) {
      forall k | 0 <= k < |creds| && Belongs(creds[k], rp) ensures Listable(keys, creds[k].value, rp) {
        assert marks[k];
        var i: nat :| i < |places| && places[i] == k;
        assert ListableAt(keys, creds, rp, i);
      }
    }
    if AllListable(keys, creds, rp) {
      forall i: nat | i < |places| ensures ListableAt(keys, creds, rp, i) {
        PlacesBelong(creds, rp, i);
      }
    }
  }

  /** The first place that cannot be listed, if there is one. */
  lemma {:induction false} FirstUnlistable(keys: Keys, creds: seq<Option<Record>>, rp: Bytes, i: nat) returns (k: nat)
    requires i < |Places(creds, rp)| && !ListableAt(keys, creds, rp, i)
    ensures k <= i && !ListableAt(keys, creds, rp, k) && forall j: nat :: j < k ==> ListableAt(keys, creds, rp, j)
    decreases i
  {
    hide Places, ListableAt;
    k := i;
    if j: nat :| j < i && !ListableAt(keys, creds, rp, j) {
      k := FirstUnlistable(keys, creds, rp, j);
    }
  }

  /**
   From any state a begin for a party and as many follow-ups as it has further credentials list
   every one of them exactly once, in order and with the right total, if and only if all of them
   can be listed; a follow-up after that is refused.
   */
  lemma EnumerationExactIff(keys: Keys, creds: seq<Option<Record>>, l: Listing, rp: Bytes)
    requires |rp| == RP_HASH_LEN
    ensures Enumerate(keys, creds, l, rp) == Expected(Places(creds, rp)) <==> AllListable(keys, creds, rp)
    ensures AllListable(keys, creds, rp) ==>
      var last := MoreAll(keys, creds, Ask(keys, creds, l, rp).0, FollowUps(Places(creds, rp))).0;
      More(keys, creds, last) == (last, Refused)
  {
    hide Places, ListableAt, AllListable, Ask, MoreAll;
    AllListableAt(keys, creds, rp);
    AskIs(keys, creds, l, rp);
    var places, n := Places(creds, rp), FollowUps(Places(creds, rp));
    var begun := Ask(keys, creds, l, rp).0;
    if places == [] {
      NoMore(keys, creds, begun);
    } else if AllListable(keys, creds, rp) {
      if n > 0 {
        ListedSoFar(keys, creds, begun, n);
      } else {
        NoMore(keys, creds, begun);
      }
      assert Enumerate(keys, creds, l, rp) == Expected(places);
    } else {
      var i: nat :| i < |places| && !ListableAt(keys, creds, rp, i);
      var k := FirstUnlistable(keys, creds, rp, i);
      if k > 0 {
        EnumerationStops(keys, creds, l, rp, k, n - (k - 1));
        assert Enumerate(keys, creds, l, rp)[k] == MoreAll(keys, creds, begun, n).1[k - 1];
      } else {
        assert Enumerate(keys, creds, l, rp)[0] == Refused;
      }
      assert Enumerate(keys, creds, l, rp)[k] == Refused;
    }
  }

  lemma NoMore(keys: Keys, creds: seq<Option<Record>>, l: Listing)
    ensures MoreAll(keys, creds, l, 0) == (l, [])
    ensures l.cursor.counter > l.cursor.total ==> More(keys, creds, l) == (l, Refused)
  {
  }

  /**
   A begin that is refused at the party's first credential leaves the party remembered before. The
   next follow-up lists that party's first credential, which does not belong to the one asked for.
   */
  lemma RefusedBeginListsAnother(keys: Keys, creds: seq<Option<Record>>, l: Listing, rp: Bytes)
    requires Ask(keys, creds, l, rp).1 == Refused && l.hash != rp
    requires Places(creds, l.hash) != [] && ListableAt(keys, creds, l.hash, 0)
    ensures var slot := Places(creds, l.hash)[0];
            More(keys, creds, Ask(keys, creds, l, rp).0).1 == Item(slot, None) &&
            slot < |creds| && Belongs(creds[slot], l.hash) && !Belongs(creds[slot], rp)
  {
    hide Places, ListableAt, Ask, More;
    AskRefused(keys, creds, l, rp);
    MoreIs(keys, creds, Ask(keys, creds, l, rp).0);
    PlacesBelong(creds, l.hash, 0);
  }

  lemma AskRefused(keys: Keys, creds: seq<Option<Record>>, l: Listing, rp: Bytes)
    requires Ask(keys, creds, l, rp).1 == Refused
    ensures |rp| == RP_HASH_LEN && Places(creds, rp) != []
    ensures Ask(keys, creds, l, rp).0 == l.(cursor := Cursor(1, |Places(creds, rp)|))
  {
    hide Places, ListableAt;
    if |rp| == RP_HASH_LEN {
      AskIs(keys, creds, l, rp);
    }
  }

  // ---------- Runs of begins and follow-ups ----------

  /** The table may be changed between requests. */
  datatype Request = Asking(rp: Bytes) | Continuing | Changing(creds: seq<Option<Record>>)

  datatype View = View(creds: seq<Option<Record>>, listing: Listing)

  function Started(creds: seq<Option<Record>>): View {
    View(creds, Listing(Cursor(1, 0), []))
  }

  function Answered(keys: Keys, v: View, r: Request): (View, Reply) {
    match r
    case Asking(rp) =>
      var (l, reply) := Ask(keys, v.creds, v.listing, rp);
      (v.(listing := l), reply)
    case Continuing =>
      var (l, reply) := More(keys, v.creds, v.listing);
      (v.(listing := l), reply)
    case Changing(creds) => (v.(creds := creds), Nothing)
  }

  function Serve(keys: Keys, v: View, requests: seq<Request>): View {
    if requests == [] then v
    else Answered(keys, Serve(keys, v, requests[..|requests| - 1]), requests[|requests| - 1]).0
  }

  /** A begin and follow-ups, wherever in a run they come, do what they do by themselves on the table as it is then. */
  lemma {:induction false} RunEnumerates(keys: Keys, v: View, requests: seq<Request>, rp: Bytes, n: nat)
    ensures var w := Serve(keys, v, requests);
            Serve(keys, v, requests + [Asking(rp)] + seq(n, _ => Continuing)) ==
              View(w.creds, MoreAll(keys, w.creds, Ask(keys, w.creds, w.listing, rp).0, n).0)
    ensures forall creds ::
      Serve(keys, v, requests + [Changing(creds)]) == Serve(keys, v, requests).(creds := creds)
    decreases n
  {
    hide Ask, More;
    var all := requests + [Asking(rp)] + seq(n, _ => Continuing);
    if n == 0 {
      assert all == requests + [Asking(rp)];
      assert all[..|requests|] == requests;
    } else {
      RunEnumerates(keys, v, requests, rp, n - 1);
      assert all[..|all| - 1] == requests + [Asking(rp)] + seq(n - 1, _ => Continuing);
    }
    forall creds ensures Serve(keys, v, requests + [Changing(creds)]) == Serve(keys, v, requests).(creds := creds) {
      assert (requests + [Changing(creds)])[..|requests|] == requests;
    }
  }

  /**
   What a client has seen: the party it last asked for, how that went, and the last party that begun
   a longer list.
   */
  datatype Memory = Memory(asked: Option<Bytes>, refused: bool, continued: bool, remembered: Bytes)

  function Recalled(m: Memory, r: Request, reply: Reply): Memory {
    match r
    case Asking(rp) =>
      if reply.Invalid? then m
      else
        var several := reply.Item? && reply.total.Some? && reply.total.value > 1;
        Memory(Some(rp), reply.Refused?, false, if several then rp else m.remembered)
    case Continuing => m.(continued := true)
    case Changing(_) => m
  }

  function Recall(keys: Keys, v: View, requests: seq<Request>): Memory {
    if requests == [] then Memory(None, false, false, [])
    else
      var before := requests[..|requests| - 1];
      var r := requests[|requests| - 1];
      Recalled(Recall(keys, v, before), r, Answered(keys, Serve(keys, v, before), r).1)
  }

  /** The last begin was refused while another party was remembered. */
  predicate Misled(m: Memory) {
    m.asked.Some? && m.refused && m.remembered != [] && m.remembered != m.asked.value
  }

  /** What the memory says about the state. */
  predicate Recalls(l: Listing, m: Memory) {
    l.hash == m.remembered && (m.remembered != [] ==> |m.remembered| == RP_HASH_LEN) && l.cursor.counter > 0 &&
    (m.asked.Some? ==> |m.asked.value| == RP_HASH_LEN) &&
    (m.asked.None? || !m.refused ==>
       l.cursor.counter > l.cursor.total || (m.asked.Some? && m.remembered == m.asked.value)) &&
    (m.asked.Some? && m.refused && !m.continued ==> l.cursor.counter == 1 <= l.cursor.total)
  }

  lemma StepRecalls(keys: Keys, v: View, m: Memory, r: Request)
    requires Recalls(v.listing, m)
    ensures var (w, reply) := Answered(keys, v, r); Recalls(w.listing, Recalled(m, r, reply))
  {
    hide Places, ListableAt, Ask, NextCreds;
    match r
    case Asking(rp) =>
      if |rp| == RP_HASH_LEN {
        AskIs(keys, v.creds, v.listing, rp);
      } else {
        AskInvalid(keys, v.creds, v.listing, rp);
      }
    case Continuing => MoreMoves(keys, v.creds, v.listing);
    case Changing(_) =>
  }

  lemma AskInvalid(keys: Keys, creds: seq<Option<Record>>, l: Listing, rp: Bytes)
    requires |rp| != RP_HASH_LEN
    ensures Ask(keys, creds, l, rp) == (l, Invalid)
  {
  }

  lemma MoreMoves(keys: Keys, creds: seq<Option<Record>>, l: Listing)
    ensures var (m, reply) := More(keys, creds, l);
            m.hash == l.hash && m.cursor.total == l.cursor.total && m.cursor.counter >= l.cursor.counter &&
            (l.cursor.counter > l.cursor.total ==> reply == Refused)
  {
  }

  lemma {:induction false} RunRecalls(keys: Keys, creds: seq<Option<Record>>, requests: seq<Request>)
    ensures Recalls(Serve(keys, Started(creds), requests).listing, Recall(keys, Started(creds), requests))
    decreases |requests|
  {
    hide Recalls, Answered, Recalled;
    var v := Started(creds);
    if requests == [] {
      StartRecalls(creds);
    } else {
      var before := requests[..|requests| - 1];
      RunRecalls(keys, creds, before);
      StepRecalls(keys, Serve(keys, v, before), Recall(keys, v, before), requests[|requests| - 1]);
    }
  }

  lemma StartRecalls(creds: seq<Option<Record>>)
    ensures Recalls(Started(creds).listing, Memory(None, false, false, []))
  {
  }

  /** Whatever a follow-up lists is a credential of the remembered party. */
  lemma ListedIsRemembered(keys: Keys, creds: seq<Option<Record>>, l: Listing)
    requires l.cursor.counter > 0 && More(keys, creds, l).1.Item?
    ensures l.cursor.counter <= l.cursor.total
    ensures var slot := More(keys, creds, l).1.slot; slot < |creds| && Belongs(creds[slot], l.hash)
  {
    hide RpCredMarks, Marked, Listable;
    var i := l.cursor.counter - 1;
    if i < |Places(creds, l.hash)| {
      PlacesBelong(creds, l.hash, i);
    }
  }

  /**
   After any run of begins, follow-ups and changes of the table, a credential that a follow-up lists
   belongs to the party last asked for if and only if that is the party remembered.
   */
  lemma ListedBelongsIff(keys: Keys, creds: seq<Option<Record>>, requests: seq<Request>)
    requires var v := Serve(keys, Started(creds), requests); More(keys, v.creds, v.listing).1.Item?
    ensures var v := Serve(keys, Started(creds), requests);
            var m := Recall(keys, Started(creds), requests);
            var slot := More(keys, v.creds, v.listing).1.slot;
            slot < |v.creds| && m.asked.Some? &&
            (Belongs(v.creds[slot], m.asked.value) <==> m.remembered == m.asked.value) &&
            (m.remembered != m.asked.value ==> Misled(m))
  {
    hide More, Serve, Recall;
    var v := Serve(keys, Started(creds), requests);
    RunRecalls(keys, creds, requests);
    ListedIsRemembered(keys, v.creds, v.listing);
  }

  // ---------- A table that does not change ----------

  predicate Unchanging(requests: seq<Request>) {
    forall i :: 0 <= i < |requests| ==> !requests[i].Changing?
  }

  /** The request lists a credential of another party than the one last asked for. */
  predicate Strays(keys: Keys, v: View, before: seq<Request>, r: Request) {
    var w := Serve(keys, v, before);
    var m := Recall(keys, v, before);
    r.Continuing? && More(keys, w.creds, w.listing).1.Item? && m.asked.Some? &&
    var slot := More(keys, w.creds, w.listing).1.slot;
    !(slot < |w.creds| && Belongs(w.creds[slot], m.asked.value))
  }

  /** The party remembered has a credential that can be listed, as it once was. */
  predicate Witnessed(keys: Keys, creds: seq<Option<Record>>, m: Memory) {
    m.remembered != [] ==> Places(creds, m.remembered) != [] && ListableAt(keys, creds, m.remembered, 0)
  }

  lemma {:induction false} RunWitnessed(keys: Keys, creds: seq<Option<Record>>, requests: seq<Request>)
    requires Unchanging(requests)
    ensures Serve(keys, Started(creds), requests).creds == creds
    ensures Witnessed(keys, creds, Recall(keys, Started(creds), requests))
    decreases |requests|
  {
    hide Places, ListableAt, Ask, NextCreds, More;
    var v := Started(creds);
    if requests != [] {
      var before := requests[..|requests| - 1];
      RunWitnessed(keys, creds, before);
      var r := requests[|requests| - 1];
      if r.Asking? {
        var l := Serve(keys, v, before).listing;
        if |r.rp| == RP_HASH_LEN {
          AskIs(keys, creds, l, r.rp);
        } else {
          AskInvalid(keys, creds, l, r.rp);
        }
      }
    }
  }

  /** The first follow-up after a refused begin, with another party remembered, lists that party's first credential. */
  lemma FirstOneStrays(keys: Keys, creds: seq<Option<Record>>, before: seq<Request>)
    requires Unchanging(before)
    requires var m := Recall(keys, Started(creds), before); Misled(m) && !m.continued
    ensures Strays(keys, Started(creds), before, Continuing)
  {
    hide Places, ListableAt, Serve, Recall, More;
    var v := Serve(keys, Started(creds), before);
    RunRecalls(keys, creds, before);
    RunWitnessed(keys, creds, before);
    MoreIs(keys, creds, v.listing);
    PlacesBelong(creds, v.listing.hash, 0);
  }

  /** Before a run that is misled and has gone on there was a follow-up that was the first after the refusal. */
  lemma {:induction false} FirstAfterRefusal(keys: Keys, v: View, requests: seq<Request>) returns (j: nat)
    requires var m := Recall(keys, v, requests); Misled(m) && m.continued
    ensures j < |requests| && requests[j] == Continuing
    ensures var m := Recall(keys, v, requests[..j]); Misled(m) && !m.continued
    decreases |requests|
  {
    hide Answered, Serve;
    var n := |requests| - 1;
    var before := requests[..n];
    if Recall(keys, v, before).continued || requests[n] != Continuing {
      j := FirstAfterRefusal(keys, v, before);
      assert before[..j] == requests[..j];
    } else {
      j := n;
    }
  }

  /**
   Over every run on a table that does not change, each credential a follow-up lists belongs to the
   party last asked for if and only if no follow-up comes after a refused begin while another
   party is remembered.
   */
  lemma NeverStraysIff(keys: Keys, creds: seq<Option<Record>>, requests: seq<Request>)
    requires Unchanging(requests)
    ensures (forall i :: 0 <= i < |requests| ==> !Strays(keys, Started(creds), requests[..i], requests[i])) <==>
            (forall i :: 0 <= i < |requests| && requests[i] == Continuing ==>
              !Misled(Recall(keys, Started(creds), requests[..i])))
  {
    hide Strays, Misled, Recall;
    var v := Started(creds);
    forall i | 0 <= i < |requests| && Strays(keys, v, requests[..i], requests[i])
      ensures requests[i] == Continuing && Misled(Recall(keys, v, requests[..i]))
    {
      StrayIsMisled(keys, creds, requests[..i], requests[i]);
    }
    if i :| 0 <= i < |requests| && requests[i] == Continuing && Misled(Recall(keys, v, requests[..i])) {
      var j := i;
      if Recall(keys, v, requests[..i]).continued {
        j := FirstAfterRefusal(keys, v, requests[..i]);
        assert requests[..i][..j] == requests[..j];
      }
      FirstOneStrays(keys, creds, requests[..j]);
      assert Strays(keys, v, requests[..j], requests[j]);
    }
  }

  lemma StrayIsMisled(keys: Keys, creds: seq<Option<Record>>, before: seq<Request>, r: Request)
    requires Strays(keys, Started(creds), before, r)
    ensures r == Continuing && Misled(Recall(keys, Started(creds), before))
  {
    hide Serve, Recall, More, Misled;
    ListedBelongsIff(keys, creds, before);
  }

  /**
   A sealed credential of an earlier firmware that happens to carry the mark of a resident ID, as
   its nonce may: it is read as a resident ID and the rest, and the rest does not open. It belongs
   to its relying party and is counted, so the party's enumeration is refused at its first
   credential, whatever other credentials it has.
   */
  lemma LookalikeBlocks(keys: Keys, rp: Bytes, sealed: Bytes, others: seq<Option<Record>>)
    requires |rp| == RP_HASH_LEN && |sealed| >= RESIDENT_LEN && IsResident(sealed) &&
      keys.open(sealed[RESIDENT_LEN..], rp).None?
    ensures var creds := [Some(Plain(rp + sealed))] + others;
            BeginCreds(keys, creds, rp) == (Cursor(1, Tally(creds, rp)), Refused) && Tally(creds, rp) > 0
  {
    LookalikeIs(keys, rp, sealed);
    FirstBlocks(keys, rp, Plain(rp + sealed), others);
  }

  /** And so is that of a party whose first credential is in a container without its public key. */
  lemma MissingKeyBlocks(keys: Keys, rp: Bytes, id: Bytes, sealed: Bytes, others: seq<Option<Record>>)
    requires |rp| == RP_HASH_LEN
    ensures var creds := [Some(Container(rp, id, sealed, None))] + others;
            BeginCreds(keys, creds, rp) == (Cursor(1, Tally(creds, rp)), Refused) && Tally(creds, rp) > 0
  {
    FirstBlocks(keys, rp, Container(rp, id, sealed, None), others);
  }

  lemma FirstBlocks(keys: Keys, rp: Bytes, record: Record, others: seq<Option<Record>>)
    requires MatchesRp(record, rp) && !Listable(keys, record, rp)
    ensures var creds := [Some(record)] + others;
            BeginCreds(keys, creds, rp) == (Cursor(1, Tally(creds, rp)), Refused) && Tally(creds, rp) > 0
  {
    var creds := [Some(record)] + others;
    var marks := RpCredMarks(creds, rp);
    assert creds[0] == Some(record) && marks[0];
    MarkedIs(marks);
    MarkedAscends(marks);
    var k :| 0 <= k < |Marked(marks)| && Marked(marks)[k] == 0;
    assert Marked(marks)[0] == 0;
    TallyIsLength(creds, rp);
  }

  lemma LookalikeIs(keys: Keys, rp: Bytes, sealed: Bytes)
    requires |rp| == RP_HASH_LEN && |sealed| >= RESIDENT_LEN && IsResident(sealed) &&
      keys.open(sealed[RESIDENT_LEN..], rp).None?
    ensures var r := Plain(rp + sealed); MatchesRp(r, rp) && Load(keys, r, rp).None? && !Listable(keys, r, rp)
  {
    var bytes := rp + sealed;
    assert bytes[RP_HASH_LEN..] == sealed && bytes[..RP_HASH_LEN] == rp;
    assert bytes[RP_HASH_LEN + RESIDENT_LEN..] == sealed[RESIDENT_LEN..];
  }
}
