/** Exchanging the configurations of two OTP slots, guarded by their access codes. */
module OtpSlots {
  import opened Basics
  import opened Otp

  const EF_OTP_SLOT2: nat := EF_OTP_SLOT1 + 1
  const LAST_SLOT: nat := EF_OTP_SLOT1 + SLOTS - 1

  /** A stored configuration; one that does not open cannot be moved. */
  datatype Config = Config(code: Bytes, data: Bytes, opens: bool)

  type Configs = map<nat, Config>

  datatype Status = Ok | IncorrectParams | SecurityNotSatisfied | ExecError

  function Content(slots: Configs, slot: nat): Option<Config> {
    if slot in slots then Some(slots[slot]) else None
  }

  /** An empty slot asks for nothing; a used one must open and carry the access code given. */
  function Access(content: Option<Config>, code: Bytes): Status {
    if content.None? then Ok
    else if !content.value.opens then ExecError
    else if content.value.code != code then SecurityNotSatisfied
    else Ok
  }

  /** The offsets count from the first and from the second slot. */
  function SwapStatus(slots: Configs, first: nat, second: nat, code: Bytes): Status {
    var a, b := EF_OTP_SLOT1 + first, EF_OTP_SLOT2 + second;
    if a > LAST_SLOT || b > LAST_SLOT || a == b then IncorrectParams
    else if Access(Content(slots, a), code) != Ok then Access(Content(slots, a), code)
    else Access(Content(slots, b), code)
  }

  function Fill(slots: Configs, slot: nat, content: Option<Config>): Configs {
    match content
    case Some(config) => slots[slot := config]
    case None => slots - {slot}
  }

  function Swap(slots: Configs, first: nat, second: nat, code: Bytes): (Configs, Status) {
    var status := SwapStatus(slots, first, second, code);
    if status != Ok then (slots, status)
    else
      var a, b := EF_OTP_SLOT1 + first, EF_OTP_SLOT2 + second;
      (Fill(Fill(slots, a, Content(slots, b)), b, Content(slots, a)), Ok)
  }

  /** A swap exchanges the two contents, empty or not, and leaves the other slots; a refused one changes nothing. */
  lemma SwapExchanges(slots: Configs, first: nat, second: nat, code: Bytes, slot: nat)
    ensures var (after, status) := Swap(slots, first, second, code);
            Content(after, slot) ==
              if status == Ok && slot == EF_OTP_SLOT1 + first then Content(slots, EF_OTP_SLOT2 + second)
              else if status == Ok && slot == EF_OTP_SLOT2 + second then Content(slots, EF_OTP_SLOT1 + first)
              else Content(slots, slot)
  {
  }

  /** The slot is empty, or opens to a configuration with this access code. */
  predicate Yields(slots: Configs, slot: nat, code: Bytes) {
    slot in slots ==> slots[slot].opens && slots[slot].code == code
  }

  /** A swap goes through exactly between two different slots that each are empty or yield to the access code. */
  lemma SwapSucceedsIff(slots: Configs, first: nat, second: nat, code: Bytes)
    ensures var (a, b) := (EF_OTP_SLOT1 + first, EF_OTP_SLOT2 + second);
            var (after, status) := Swap(slots, first, second, code);
            (status == IncorrectParams <==> first >= SLOTS || second >= SLOTS - 1 || first == second + 1) &&
            (status == Ok <==> status != IncorrectParams && Yields(slots, a, code) && Yields(slots, b, code)) &&
            (status == SecurityNotSatisfied ==>
               exists slot :: slot in {a, b} && slot in slots && slots[slot].opens && slots[slot].code != code) &&
            (status == ExecError ==> exists slot :: slot in {a, b} && slot in slots && !slots[slot].opens)
  {
  }

  /** What one swap does the same swap undoes. */
  lemma SwapTwice(slots: Configs, first: nat, second: nat, code: Bytes)
    ensures var (once, status) := Swap(slots, first, second, code);
            Swap(once, first, second, code) == (slots, status)
  {
    var (once, status) := Swap(slots, first, second, code);
    var (twice, again) := Swap(once, first, second, code);
    if status == Ok {
      SwapExchanges(slots, first, second, code, EF_OTP_SLOT1 + first);
      SwapExchanges(slots, first, second, code, EF_OTP_SLOT2 + second);
      forall slot ensures Content(twice, slot) == Content(slots, slot) {
        SwapExchanges(slots, first, second, code, slot);
        SwapExchanges(once, first, second, code, slot);
      }
      SameSlots(twice, slots);
    }
  }

  lemma SameSlots(a: Configs, b: Configs)
    requires forall slot :: Content(a, slot) == Content(b, slot)
    ensures a == b
  {
    forall slot: nat ensures (slot in a <==> slot in b) && (slot in a ==> a[slot] == b[slot]) {
      assert Content(a, slot) == Content(b, slot);
    }
  }

  class Store {
    var slots: Configs

    constructor (stored: Configs)
      ensures slots == stored
    {
      slots := stored;
    }

    method SwapSlots(first: nat, second: nat, code: Bytes) returns (status: Status)
      modifies this
      ensures (slots, status) == Swap(old(slots), first, second, code)
    {
      var a, b := EF_OTP_SLOT1 + first, EF_OTP_SLOT2 + second;
      if a > LAST_SLOT || b > LAST_SLOT || a == b {
        return IncorrectParams;
      }
      var held, moved := Content(slots, a), Content(slots, b);
      if held.Some? {
        if !held.value.opens {
          return ExecError;
        }
        if held.value.code != code {
          return SecurityNotSatisfied;
        }
      }
      if moved.Some? {
        if !moved.value.opens {
          return ExecError;
        }
        if moved.value.code != code {
          return SecurityNotSatisfied;
        }
        slots := slots[a := moved.value];
      } else {
        slots := slots - {a};
      }
      if held.Some? {
        slots := slots[b := held.value];
      } else if moved.Some? {
        slots := slots - {b};
      }
      ghost var swapped := Swap(old(slots), first, second, code).0;
      forall slot ensures Content(slots, slot) == Content(swapped, slot) {
        SwapExchanges(old(slots), first, second, code, slot);
      }
      SameSlots(slots, swapped);
      status := Ok;
    }
  }
}
