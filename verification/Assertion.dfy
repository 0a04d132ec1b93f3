/**
 Discoverable-credential assertions: collecting the relying party's credentials, dropping
 those that ask for more user verification than there was, ranking the rest by age, and
 handing them out one request at a time.
 */
module Assertion {
  import opened Basics

  const MAX_IN_LIST: nat := 16
  const NEXT_TIME_LIMIT: nat := 30000
  const UV_OPTIONAL_WITH_LIST: nat := 2
  const UV_REQUIRED: nat := 3

  /** `protection` is absent when the credential carries no extensions. */
  datatype Credential = Credential(rp: Bytes, id: Bytes, protection: Option<nat>, created: nat)

  /** A slot's record may be there and yet fail to unseal. */
  datatype Slot = Empty | Occupied(credential: Credential, loads: bool)

  datatype Status = NoCredentials | NotAllowed | Failed

  /** `count` is reported with the first assertion only, and only when there is more than one. */
  datatype Response = Assertion(credential: Credential, count: Option<nat>) | Refused(status: Status)

  // ---------- Candidates ----------

  predicate Matches(slot: Slot, rp: Bytes) {
    slot.Occupied? && slot.credential.rp == rp && slot.loads
  }

  /** Every loading credential of the relying party, in slot order. */
  function Candidates(slots: seq<Slot>, rp: Bytes): seq<Credential> {
    if slots == [] then []
    else
      var last := slots[|slots| - 1];
      Candidates(slots[..|slots| - 1], rp) + (if Matches(last, rp) then [last.credential] else [])
  }

  function First(creds: seq<Credential>): seq<Credential> {
    if |creds| <= MAX_IN_LIST then creds else creds[..MAX_IN_LIST]
  }

  predicate Eligible(c: Credential, verified: bool, listed: bool) {
    c.protection.None? || verified ||
    (c.protection.value != UV_REQUIRED && (c.protection.value != UV_OPTIONAL_WITH_LIST || listed))
  }

  function Kept(creds: seq<Credential>, verified: bool, listed: bool): seq<Credential> {
    if creds == [] then []
    else
      var last := creds[|creds| - 1];
      Kept(creds[..|creds| - 1], verified, listed) + (if Eligible(last, verified, listed) then [last] else [])
  }

  /** The credentials an assertion with an empty allow list may use. */
  function Usable(slots: seq<Slot>, rp: Bytes, verified: bool): seq<Credential> {
    Kept(First(Candidates(slots, rp)), verified, false)
  }

  /** The same credentials, each as often, newest first. */
  ghost predicate Ranks(ranked: seq<Credential>, creds: seq<Credential>) {
    multiset(ranked) == multiset(creds) && NewestFirst(ranked)
  }

  predicate NewestFirst(creds: seq<Credential>) {
    forall i, j :: 0 <= i < j < |creds| ==> creds[i].created >= creds[j].created
  }

  // ---------- Handing them out ----------

  datatype Cursor = Cursor(creds: seq<Credential>, counter: nat, number: nat, timer: nat)

  const RESET := Cursor([], 0, 0, 0)

  predicate ValidCursor(c: Cursor) {
    c.number <= |c.creds| && c.timer <= UINT32_MAX
  }

  function Start(ranked: seq<Credential>, now: nat): Cursor {
    if |ranked| > 1 then Cursor(ranked, 1, |ranked|, now) else RESET
  }

  predicate InTime(timer: nat, now: nat) {
    Add32(timer, NEXT_TIME_LIMIT) >= now
  }

  /** `now` is read on arrival and `later` once the assertion is made, which may fail. */
  function Next(c: Cursor, now: nat, later: nat, works: bool): (Cursor, Response)
    requires ValidCursor(c)
  {
    if c.counter >= c.number || !InTime(c.timer, now) then (RESET, Refused(NotAllowed))
    else if !works then (RESET, Refused(Failed))
    else
      (if c.counter + 1 == c.number then RESET else c.(timer := later, counter := c.counter + 1),
       Assertion(c.creds[c.counter], None))
  }

  /**
   A follow-up is refused, and what is remembered is forgotten, exactly when there is nothing left or more
   than thirty seconds have passed; where that moment lies past the end of the clock, it wraps with it.
   */
  lemma FollowUpExpires(c: Cursor, now: nat, later: nat, works: bool)
    requires ValidCursor(c)
    ensures var deadline := c.timer + 30000;
            var last := if deadline <= UINT32_MAX then deadline else deadline - UINT32_MAX - 1;
            (Next(c, now, later, works).1 == Refused(NotAllowed) <==> c.counter >= c.number || now > last) &&
            (Next(c, now, later, works).1.Assertion? <==> c.counter < c.number && now <= last && works) &&
            (Next(c, now, later, works).1.Refused? ==>
               Next(c, now, later, works).0 == RESET && Next(c, now, later, works).1.status in {NotAllowed, Failed})
  {
  }

  // ---------- The procedures ----------

  lemma CandidatesStep(slots: seq<Slot>, rp: Bytes, i: nat)
    requires i < |slots|
    ensures Candidates(slots[..i + 1], rp) ==
      Candidates(slots[..i], rp) + (if Matches(slots[i], rp) then [slots[i].credential] else [])
  {
    assert slots[..i + 1][..i] == slots[..i];
  }

  /** Past the limit further candidates do not matter. */
  lemma {:induction false} CandidatesGrow(slots: seq<Slot>, rp: Bytes, i: nat)
    requires i <= |slots|
    ensures Candidates(slots[..i], rp) <= Candidates(slots, rp)
    decreases |slots| - i
  {
    if i < |slots| {
      CandidatesStep(slots, rp, i);
      CandidatesGrow(slots, rp, i + 1);
    } else {
      assert slots[..i] == slots;
    }
  }

  method Collect(slots: seq<Slot>, rp: Bytes, creds: array<Credential>) returns (n: nat)
    requires creds.Length == MAX_IN_LIST
    modifies creds
    ensures n <= creds.Length && creds[..n] == First(Candidates(slots, rp))
  {
    n := 0;
    var i := 0;
    while i < |slots| && n < MAX_IN_LIST
      invariant i <= |slots| && n <= MAX_IN_LIST
      invariant creds[..n] == Candidates(slots[..i], rp)
    {
      CandidatesStep(slots, rp, i);
      if slots[i].Occupied? && slots[i].credential.rp == rp {
        if slots[i].loads {
          creds[n] := slots[i].credential;
          n := n + 1;
        }
      }
      i := i + 1;
    }
    CandidatesGrow(slots, rp, i);
    if i == |slots| {
      assert slots[..i] == slots;
    }
  }

  lemma KeptStep(creds: seq<Credential>, verified: bool, listed: bool, i: nat)
    requires i < |creds|
    ensures Kept(creds[..i + 1], verified, listed) ==
      Kept(creds[..i], verified, listed) + (if Eligible(creds[i], verified, listed) then [creds[i]] else [])
    ensures |Kept(creds[..i], verified, listed)| <= i
  {
    assert creds[..i + 1][..i] == creds[..i];
    KeptShorter(creds[..i], verified, listed);
  }

  lemma KeptShorter(creds: seq<Credential>, verified: bool, listed: bool)
    ensures |Kept(creds, verified, listed)| <= |creds|
  {
  }

  /** What is kept: every eligible credential as often as it was there, and no other. */
  lemma {:induction false} KeptMultiplicity(creds: seq<Credential>, verified: bool, listed: bool, c: Credential)
    ensures multiset(Kept(creds, verified, listed))[c] ==
      if Eligible(c, verified, listed) then multiset(creds)[c] else 0
    decreases |creds|
  {
    if creds != [] {
      KeptMultiplicity(creds[..|creds| - 1], verified, listed, c);
      assert creds == creds[..|creds| - 1] + [creds[|creds| - 1]];
    }
  }

  /** A credential is a candidate exactly when some slot holds it for this relying party and lets it load. */
  lemma {:induction false} CandidateIff(slots: seq<Slot>, rp: Bytes, c: Credential)
    ensures c in Candidates(slots, rp) <==> Occupied(c, true) in slots && c.rp == rp
    decreases |slots|
  {
    if slots != [] {
      CandidateIff(slots[..|slots| - 1], rp, c);
      assert slots == slots[..|slots| - 1] + [slots[|slots| - 1]];
    }
  }

  /**
   What the levels of credProtect allow (section 12.1 of CTAP 2.1): the third nothing without user
   verification, the second nothing without it to one who does not name the credential, any other everything.
   */
  predicate Allowed(level: Option<nat>, verified: bool, listed: bool) {
    match level
    case Some(3) => verified
    case Some(2) => verified || listed
    case _ => true
  }

  /** With few enough candidates, the usable credentials are those loading ones of the party that their level allows. */
  lemma UsableIff(slots: seq<Slot>, rp: Bytes, verified: bool, c: Credential)
    requires |Candidates(slots, rp)| <= MAX_IN_LIST
    ensures c in Usable(slots, rp, verified) <==>
      Occupied(c, true) in slots && c.rp == rp && Allowed(c.protection, verified, false)
  {
    CandidateIff(slots, rp, c);
    KeptIff(Candidates(slots, rp), verified, false, c);
  }

  /** Among any credentials those are kept that their level allows, named or not. */
  lemma KeptIff(creds: seq<Credential>, verified: bool, listed: bool, c: Credential)
    ensures c in Kept(creds, verified, listed) <==> c in creds && Allowed(c.protection, verified, listed)
  {
    KeptMultiplicity(creds, verified, listed, c);
    assert c in Kept(creds, verified, listed) <==> c in multiset(Kept(creds, verified, listed));
    assert c in creds <==> c in multiset(creds);
  }

  /** Moves the eligible credentials to the front, in order. */
  method Compact(creds: array<Credential>, n: nat, verified: bool, listed: bool) returns (kept: nat)
    requires n <= creds.Length
    modifies creds
    ensures kept <= n && creds[..kept] == Kept(old(creds[..n]), verified, listed)
  {
    hide Kept;
    ghost var was := creds[..n];
    kept := 0;
    NothingKept(was, verified, listed);
    for i := 0 to n
      invariant kept <= i
      invariant creds[..kept] == Kept(was[..i], verified, listed)
      invariant forall k :: i <= k < n ==> creds[k] == was[k]
    {
      KeptStep(was, verified, listed, i);
      var c := creds[i];
      if c.protection.Some? && c.protection.value == UV_REQUIRED && !verified {
      } else if c.protection.Some? && c.protection.value == UV_OPTIONAL_WITH_LIST && !listed && !verified {
      } else {
        if kept != i {
          creds[kept] := c;
        }
        kept := kept + 1;
      }
    }
    assert was[..n] == was;
  }

  lemma NothingKept(creds: seq<Credential>, verified: bool, listed: bool)
    ensures Kept(creds[..0], verified, listed) == []
  {
  }

  /** The first `i` are final: each is at least as new as everything behind it. */
  predicate Settled(creds: seq<Credential>, i: nat) {
    forall a, b :: 0 <= a < i && a < b < |creds| ==> creds[a].created >= creds[b].created
  }

  function Swap(creds: seq<Credential>, i: nat, j: nat): seq<Credential>
    requires i < |creds| && j < |creds|
  {
    creds[i := creds[j]][j := creds[i]]
  }

  /** Among the places from `i` up to `j`, `i` holds the newest. */
  predicate Leads(creds: seq<Credential>, i: nat, j: nat) {
    forall k :: i < k < j && k < |creds| && i < |creds| ==> creds[i].created >= creds[k].created
  }

  lemma SwapSettles(creds: seq<Credential>, i: nat, j: nat)
    requires i < j < |creds| && Settled(creds, i) && Leads(creds, i, j) && creds[j].created > creds[i].created
    ensures Settled(Swap(creds, i, j), i) && Leads(Swap(creds, i, j), i, j + 1)
    ensures multiset(Swap(creds, i, j)) == multiset(creds)
  {
  }

  lemma LeaderSettles(creds: seq<Credential>, i: nat)
    requires i < |creds| && Settled(creds, i) && Leads(creds, i, |creds|)
    ensures Settled(creds, i + 1)
  {
  }

  method Exchange(creds: array<Credential>, n: nat, i: nat, j: nat)
    requires i < j < n <= creds.Length
    modifies creds
    ensures creds[..n] == Swap(old(creds[..n]), i, j)
  {
    var tmp := creds[j];
    creds[j] := creds[i];
    creds[i] := tmp;
  }

  /** Exchange sort: each place takes the newest of what is left. */
  method SortNewestFirst(creds: array<Credential>, n: nat)
    requires n <= creds.Length
    modifies creds
    ensures Ranks(creds[..n], old(creds[..n]))
  {
    hide Settled, Leads, Swap;
    NothingSettled(creds[..n]);
    for i := 0 to n
      invariant Settled(creds[..n], i) && multiset(creds[..n]) == multiset(old(creds[..n]))
    {
      NothingLed(creds[..n], i);
      for j := i + 1 to n
        invariant Settled(creds[..n], i) && multiset(creds[..n]) == multiset(old(creds[..n]))
        invariant Leads(creds[..n], i, j)
      {
        if creds[j].created > creds[i].created {
          SwapSettles(creds[..n], i, j);
          Exchange(creds, n, i, j);
        } else {
          StillLeads(creds[..n], i, j);
        }
      }
      LeaderSettles(creds[..n], i);
    }
    AllSettled(creds[..n]);
  }

  lemma NothingSettled(creds: seq<Credential>)
    ensures Settled(creds, 0)
  {
  }

  lemma NothingLed(creds: seq<Credential>, i: nat)
    ensures Leads(creds, i, i + 1)
  {
  }

  lemma StillLeads(creds: seq<Credential>, i: nat, j: nat)
    requires i < j < |creds| && Leads(creds, i, j) && creds[j].created <= creds[i].created
    ensures Leads(creds, i, j + 1)
  {
  }

  lemma AllSettled(creds: seq<Credential>)
    requires Settled(creds, |creds|)
    ensures NewestFirst(creds)
  {
  }

  // ---------- A whole exchange ----------

  /** The times and outcomes of the requests that follow the first one. */
  datatype Follow = Follow(now: nat, later: nat, works: bool)

  /** What the cursor hands out over a series of follow-up requests, and the cursor after it. */
  function Handed(c: Cursor, follows: seq<Follow>): (r: (Cursor, seq<Response>))
    requires ValidCursor(c) && Clocked(follows)
    ensures ValidCursor(r.0) && |r.1| == |follows|
  {
    if follows == [] then (c, [])
    else
      var f := follows[|follows| - 1];
      var before := Handed(c, follows[..|follows| - 1]);
      var step := Next(before.0, f.now, f.later, f.works);
      (step.0, before.1 + [step.1])
  }

  predicate Clocked(follows: seq<Follow>) {
    forall i :: 0 <= i < |follows| ==> follows[i].later <= UINT32_MAX
  }

  function LastTime(start: nat, follows: seq<Follow>): nat {
    if follows == [] then start else follows[|follows| - 1].later
  }

  /** Each request comes in time after the one before it, and works. */
  predicate Prompt(start: nat, follows: seq<Follow>) {
    follows == [] ||
    (var before := follows[..|follows| - 1];
     var f := follows[|follows| - 1];
     Prompt(start, before) && f.works && InTime(LastTime(start, before), f.now))
  }

  /** The first `n` responses carry the credentials after the first, in order. */
  predicate InOrder(responses: seq<Response>, ranked: seq<Credential>) {
    |responses| < |ranked| && forall i :: 0 <= i < |responses| ==> responses[i] == Assertion(ranked[i + 1], None)
  }

  lemma {:induction false} HandedPrefix(ranked: seq<Credential>, start: nat, follows: seq<Follow>)
    requires |ranked| > 1 && |follows| < |ranked| && start <= UINT32_MAX
    requires Clocked(follows) && Prompt(start, follows)
    ensures var (c, responses) := Handed(Start(ranked, start), follows);
            InOrder(responses, ranked) &&
            c == (if |follows| + 1 == |ranked| then RESET
                  else Cursor(ranked, |follows| + 1, |ranked|, LastTime(start, follows)))
    decreases |follows|
  {
    if follows != [] {
      HandedPrefix(ranked, start, follows[..|follows| - 1]);
    }
  }

  /** The first answer; the number of credentials is reported only when there is more than one. */
  function Answer(ranked: seq<Credential>): Response {
    if ranked == [] then Refused(NoCredentials)
    else Assertion(ranked[0], if |ranked| > 1 then Some(|ranked|) else None)
  }

  /**
   An assertion with an empty allow list and its follow-ups hand out every usable credential
   exactly once, newest first, and after the last one nothing more. With none there is only
   the refusal, with one no follow-up.
   */
  lemma ExchangeIsExact(slots: seq<Slot>, rp: Bytes, verified: bool, ranked: seq<Credential>, start: nat,
                        follows: seq<Follow>, extra: Follow)
    requires Ranks(ranked, Usable(slots, rp, verified)) && start <= UINT32_MAX
    requires |follows| == (if |ranked| > 1 then |ranked| - 1 else 0) && Clocked(follows) && Prompt(start, follows)
    ensures var usable := Usable(slots, rp, verified);
            var (c, responses) := Handed(Start(ranked, start), follows);
            var all := [Answer(ranked)] + responses;
            multiset(Credentials(all)) == multiset(usable) && NewestFirst(Credentials(all)) &&
            (usable == [] <==> all == [Refused(NoCredentials)]) &&
            (usable != [] ==>
              |all| == |usable| && all[0].Assertion? &&
              all[0].count == if |usable| > 1 then Some(|usable|) else None) &&
            Next(c, extra.now, extra.later, extra.works) == (RESET, Refused(NotAllowed))
  {
    hide Prompt, Credentials, Next, Usable;
    var usable := Usable(slots, rp, verified);
    assert |multiset(ranked)| == |ranked| && |multiset(usable)| == |usable|;
    NextAfterReset(extra.now, extra.later, extra.works);
    if ranked == [] {
      assert [Answer(ranked)] + Handed(Start(ranked, start), follows).1 == [Refused(NoCredentials)];
      NoCredentialsIn();
    } else {
      if |ranked| > 1 {
        HandedPrefix(ranked, start, follows);
      }
      CredentialsAre([Answer(ranked)] + Handed(Start(ranked, start), follows).1, ranked);
    }
  }

  lemma NoCredentialsIn()
    ensures Credentials([Refused(NoCredentials)]) == []
  {
    assert [Refused(NoCredentials)][..0] == [];
  }

  lemma NextAfterReset(now: nat, later: nat, works: bool)
    ensures Next(RESET, now, later, works) == (RESET, Refused(NotAllowed))
  {
  }

  function Credentials(responses: seq<Response>): seq<Credential> {
    if responses == [] then []
    else
      var last := responses[|responses| - 1];
      Credentials(responses[..|responses| - 1]) + (if last.Assertion? then [last.credential] else [])
  }

  lemma {:induction false} CredentialsAre(responses: seq<Response>, creds: seq<Credential>)
    requires |responses| == |creds|
    requires forall i :: 0 <= i < |responses| ==> responses[i].Assertion? && responses[i].credential == creds[i]
    ensures Credentials(responses) == creds
    decreases |creds|
  {
    if responses != [] {
      CredentialsAre(responses[..|responses| - 1], creds[..|creds| - 1]);
    }
  }

  // ---------- State between requests ----------

  class Authenticator {
    var credsx: array<Credential>
    var credentialCounter: nat
    var numberOfCredentials: nat
    var timer: nat

    ghost predicate Valid()
      reads this, credsx
    {
      credsx.Length == MAX_IN_LIST && numberOfCredentials <= MAX_IN_LIST && timer <= UINT32_MAX
    }

    /** Only what is still to be handed out counts; entries past the number are left over. */
    ghost function State(): (c: Cursor)
      requires Valid()
      reads this, credsx
    {
      Cursor(credsx[..numberOfCredentials], credentialCounter, numberOfCredentials, timer)
    }

    constructor (filler: Credential)
      ensures Valid() && fresh(credsx) && State() == Cursor([], 1, 0, 0)
    {
      credsx := new Credential[MAX_IN_LIST](_ => filler);
      credentialCounter, numberOfCredentials, timer := 1, 0, 0;
    }

    method Reset()
      requires Valid()
      modifies this`credentialCounter, this`numberOfCredentials, this`timer
      ensures Valid() && State() == RESET
    {
      timer, credentialCounter, numberOfCredentials := 0, 0, 0;
    }

    method Remember(creds: array<Credential>, number: nat, now: nat)
      requires Valid() && creds.Length == MAX_IN_LIST && creds != credsx && 1 < number <= MAX_IN_LIST &&
        now <= UINT32_MAX
      modifies this`credentialCounter, this`numberOfCredentials, this`timer, credsx
      ensures Valid() && State() == Start(creds[..number], now)
    {
      for i := 0 to number
        invariant Valid() && credsx[..i] == creds[..i]
      {
        credsx[i] := creds[i];
      }
      numberOfCredentials := number;
      timer := now;
      credentialCounter := 1;
    }

    /** Any command but a follow-up starts from a reset cursor; `works` says whether the signing goes through. */
    method GetAssertion(slots: seq<Slot>, rp: Bytes, verified: bool, filler: Credential, now: nat, works: bool)
      returns (r: Response, ghost ranked: seq<Credential>)
      requires Valid() && now <= UINT32_MAX
      modifies this, credsx
      ensures Valid() && credsx == old(credsx)
      ensures Ranks(ranked, Usable(slots, rp, verified))
      ensures r == if ranked != [] && !works then Refused(Failed) else Answer(ranked)
      ensures State() == if r.Refused? then RESET else Start(ranked, now)
    {
      hide Candidates, Kept, NewestFirst, First;
      Reset();
      var creds := new Credential[MAX_IN_LIST](_ => filler);
      var n := Collect(slots, rp, creds);
      var number := Compact(creds, n, verified, false);
      SortNewestFirst(creds, number);
      ranked := creds[..number];
      if number == 0 {
        return Refused(NoCredentials), ranked;
      }
      if number > 1 {
        Remember(creds, number, now);
      }
      if !works {
        Reset();
        return Refused(Failed), ranked;
      }
      r := Assertion(creds[0], if number > 1 then Some(number) else None);
    }

    method GetNextAssertion(now: nat, later: nat, works: bool) returns (r: Response)
      requires Valid() && later <= UINT32_MAX
      modifies this`credentialCounter, this`numberOfCredentials, this`timer
      ensures Valid() && (State(), r) == Next(old(State()), now, later, works)
    {
      if credentialCounter >= numberOfCredentials {
        Reset();
        return Refused(NotAllowed);
      }
      if Add32(timer, 30 * 1000) < now {
        Reset();
        return Refused(NotAllowed);
      }
      if !works {
        Reset();
        return Refused(Failed);
      }
      r := Assertion(credsx[credentialCounter], None);
      timer := later;
      credentialCounter := credentialCounter + 1;
      if credentialCounter == numberOfCredentials {
        Reset();
      }
    }
  }

  // ---------- A client ----------

  lemma {:induction false} PromptPrefix(start: nat, follows: seq<Follow>, n: nat)
    requires n <= |follows| && Prompt(start, follows)
    ensures Prompt(start, follows[..n])
    decreases |follows|
  {
    if n < |follows| {
      assert follows[..|follows| - 1][..n] == follows[..n];
      PromptPrefix(start, follows[..|follows| - 1], n);
    } else {
      assert follows[..n] == follows;
    }
  }

  /** The follow-up after `i` others, while something is left. */
  lemma FollowUp(ranked: seq<Credential>, start: nat, follows: seq<Follow>, i: nat)
    requires i < |follows| && start <= UINT32_MAX && Clocked(follows) && Prompt(start, follows) && 0 < |ranked|
    requires i < |ranked|
    ensures var f := follows[i];
            var (c, replies) := Handed(Start(ranked, start), follows[..i]);
            var (d, reply) := Next(c, f.now, f.later, f.works);
            Handed(Start(ranked, start), follows[..i + 1]) == (d, replies + [reply]) &&
            reply == (if i + 1 < |ranked| then Assertion(ranked[i + 1], None) else Refused(NotAllowed)) &&
            (reply.Refused? ==> d == RESET)
  {
    assert follows[..i + 1][..i] == follows[..i];
    PromptPrefix(start, follows, i);
    PromptPrefix(start, follows, i + 1);
    if |ranked| > 1 {
      HandedPrefix(ranked, start, follows[..i]);
      if i + 1 < |ranked| {
        HandedPrefix(ranked, start, follows[..i + 1]);
        assert InOrder(Handed(Start(ranked, start), follows[..i + 1]).1, ranked);
      }
    }
  }

  /**
   A client that asks once and follows up, in time, until it is refused gets every usable
   credential exactly once, newest first; there are never more than sixteen.
   */
  method AskAll(a: Authenticator, slots: seq<Slot>, rp: Bytes, verified: bool, filler: Credential, now: nat,
                follows: seq<Follow>)
    returns (got: seq<Credential>)
    requires a.Valid() && now <= UINT32_MAX
    requires |follows| == MAX_IN_LIST && Clocked(follows) && Prompt(now, follows)
    modifies a, a.credsx
    ensures a.Valid() && a.State() == RESET
    ensures multiset(got) == multiset(Usable(slots, rp, verified)) && NewestFirst(got)
  {
    hide Candidates, Kept, First, Handed, Prompt, Usable, NewestFirst, Next, Start;
    var r;
    ghost var ranked;
    r, ranked := a.GetAssertion(slots, rp, verified, filler, now, true);
    UsableFew(slots, rp, verified);
    assert |multiset(ranked)| == |ranked| && |multiset(Usable(slots, rp, verified))| == |Usable(slots, rp, verified)|;
    got := [];
    if r.Refused? {
      NoneNewest();
      return;
    }
    got := [r.credential];
    var i := 0;
    NothingHanded(Start(ranked, now), follows);
    while i < |follows| && r.Assertion?
      invariant a.Valid() && i <= |follows| && a.credsx == old(a.credsx)
      invariant r.Assertion? ==>
        i < |ranked| && got == ranked[..i + 1] && a.State() == Handed(Start(ranked, now), follows[..i]).0
      invariant r.Refused? ==> got == ranked && a.State() == RESET
    {
      FollowUp(ranked, now, follows, i);
      r := a.GetNextAssertion(follows[i].now, follows[i].later, follows[i].works);
      if r.Assertion? {
        got := got + [r.credential];
      }
      i := i + 1;
    }
  }

  lemma NothingHanded(c: Cursor, follows: seq<Follow>)
    requires ValidCursor(c) && Clocked(follows)
    ensures Handed(c, follows[..0]) == (c, [])
  {
  }

  lemma NoneNewest()
    ensures NewestFirst([])
  {
  }

  lemma UsableFew(slots: seq<Slot>, rp: Bytes, verified: bool)
    ensures |Usable(slots, rp, verified)| <= MAX_IN_LIST
  {
    KeptShorter(First(Candidates(slots, rp)), verified, false);
  }
}
