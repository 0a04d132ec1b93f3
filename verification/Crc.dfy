/** The 16-bit frame check sequence of RFC 1662, Appendix C, as the OTP application computes it. */
module Crc {
  import opened Basics

  const INITIAL: bv16 := 0xFFFF
  const POLYNOMIAL: bv16 := 0x8408
  const GOOD_RESIDUE: bv16 := 0xF0B8

  function ShiftBit(crc: bv16): bv16 {
    if crc & 1 == 1 then (crc >> 1) ^ POLYNOMIAL else crc >> 1
  }

  function Shift(crc: bv16, bits: nat): bv16 {
    if bits == 0 then crc else ShiftBit(Shift(crc, bits - 1))
  }

  function Absorb(crc: bv16, b: bv8): bv16 {
    Shift(crc ^ (b as bv16), 8)
  }

  function Fcs(data: Bytes): bv16 {
    if data == [] then INITIAL else Absorb(Fcs(data[..|data| - 1]), data[|data| - 1])
  }

  function Low(crc: bv16): bv8 { (crc & 0xFF) as bv8 }

  function High(crc: bv16): bv8 { (crc >> 8) as bv8 }

  /** The two bytes appended to a frame: the complement of its check sequence, low byte first. */
  function Trailer(data: Bytes): Bytes {
    Complement(Fcs(data))
  }

  function Complement(crc: bv16): Bytes {
    [Low(!crc), High(!crc)]
  }

  lemma FcsStep(data: Bytes, i: nat)
    requires i < |data|
    ensures Fcs(data[..i + 1]) == Absorb(Fcs(data[..i]), data[i])
  {
    assert data[..i + 1][..i] == data[..i];
  }

  method CalculateCrc(data: Bytes) returns (crc: bv16)
    ensures crc == Fcs(data)
  {
    hide Fcs, Shift;
    crc := 0xFFFF;
    EmptyFcs(data);
    for idx := 0 to |data|
      invariant crc == Fcs(data[..idx])
    {
      FcsStep(data, idx);
      crc := ShiftOut(crc ^ (data[idx] as bv16));
    }
    assert data[..|data|] == data;
  }

  lemma EmptyFcs(data: Bytes)
    ensures Fcs(data[..0]) == 0xFFFF
  {
  }

  /** The inner loop of the calculation: eight shifts, one bit at a time. */
  method ShiftOut(register: bv16) returns (crc: bv16)
    ensures crc == Shift(register, 8)
  {
    crc := register;
    for i := 0 to 8
      invariant crc == Shift(register, i)
    {
      var j := crc & 0x1;
      crc := if j == 1 then (crc >> 1) ^ 0x8408 else crc >> 1;
    }
  }

  // ---------- One byte is never lost ----------

  function ShiftByte(c: bv16): bv16 {
    ShiftBit(ShiftBit(ShiftBit(ShiftBit(ShiftBit(ShiftBit(ShiftBit(ShiftBit(c))))))))
  }

  lemma ShiftEight(c: bv16)
    ensures Shift(c, 8) == ShiftByte(c)
  {
    var n: nat := 8;
    assert Shift(c, n) == ShiftBit(Shift(c, n - 1));
    assert Shift(c, n - 1) == ShiftBit(Shift(c, n - 2));
    assert Shift(c, n - 2) == ShiftBit(Shift(c, n - 3));
    assert Shift(c, n - 3) == ShiftBit(Shift(c, n - 4));
    assert Shift(c, n - 4) == ShiftBit(Shift(c, n - 5));
    assert Shift(c, n - 5) == ShiftBit(Shift(c, n - 6));
    assert Shift(c, n - 6) == ShiftBit(Shift(c, n - 7));
    assert Shift(c, n - 7) == ShiftBit(c);
  }

  lemma ShiftBitInjective(a: bv16, b: bv16)
    requires ShiftBit(a) == ShiftBit(b)
    ensures a == b
  {
  }

  lemma {:induction false} ShiftInjective(a: bv16, b: bv16, bits: nat)
    requires Shift(a, bits) == Shift(b, bits)
    ensures a == b
  {
    if bits > 0 {
      ShiftBitInjective(Shift(a, bits - 1), Shift(b, bits - 1));
      ShiftInjective(a, b, bits - 1);
    }
  }

  lemma TwoBytesBits(c: bv16, low: bv8, high: bv8)
    ensures ShiftByte(ShiftByte(c ^ (low as bv16)) ^ (high as bv16)) == GOOD_RESIDUE <==>
            c ^ (low as bv16) ^ ((high as bv16) << 8) == 0xFFFF
  {
  }

  lemma ComplementBits(c: bv16, low: bv8, high: bv8)
    ensures c ^ (low as bv16) ^ ((high as bv16) << 8) == 0xFFFF <==> low == Low(!c) && high == High(!c)
  {
  }

  lemma ComplementBytes(c: bv16, low: bv8, high: bv8)
    ensures low == Low(!c) && high == High(!c) <==> [low, high] == Complement(c)
  {
    hide Low, High;
    assert [low, high][0] == low && [low, high][1] == high;
    assert Complement(c)[0] == Low(!c) && Complement(c)[1] == High(!c);
  }

  /** Two trailing bytes leave the good residue exactly when they complement the register. */
  lemma TwoBytes(c: bv16, low: bv8, high: bv8)
    ensures Absorb(Absorb(c, low), high) == GOOD_RESIDUE <==> [low, high] == Complement(c)
  {
    hide Absorb, ShiftByte, Complement, Low, High;
    ComplementBytes(c, low, high);
    AbsorbIsShiftByte(c, low);
    AbsorbIsShiftByte(Absorb(c, low), high);
    TwoBytesBits(c, low, high);
    ComplementBits(c, low, high);
  }

  /** The residue law: a frame is good exactly when its last two bytes are the trailer of the rest. */
  lemma ResidueIffTrailer(data: Bytes, tail: Bytes)
    requires |tail| == 2
    ensures Fcs(data + tail) == GOOD_RESIDUE <==> tail == Trailer(data)
  {
    hide Absorb, Complement;
    FcsTail(data, tail[0], tail[1]);
    assert tail == [tail[0], tail[1]];
    TwoBytes(Fcs(data), tail[0], tail[1]);
  }

  lemma ClosedFrameIsGood(data: Bytes)
    ensures |Trailer(data)| == 2 && Fcs(data + Trailer(data)) == GOOD_RESIDUE
  {
    hide Fcs, Low, High;
    ResidueIffTrailer(data, Trailer(data));
  }

  lemma FcsTail(data: Bytes, low: bv8, high: bv8)
    ensures Fcs(data + [low, high]) == Absorb(Absorb(Fcs(data), low), high)
  {
    hide Absorb;
    var frame := data + [low, high];
    assert frame[..|frame| - 1] == data + [low];
    assert (data + [low])[..|data|] == data;
  }

  lemma AbsorbIsShiftByte(c: bv16, b: bv8)
    ensures Absorb(c, b) == ShiftByte(c ^ (b as bv16))
  {
    ShiftEight(c ^ (b as bv16));
  }

  /** Different bytes after the same prefix, or the same byte after different registers, stay apart. */
  lemma AbsorbInjective(c: bv16, d: bv16, a: bv8, b: bv8)
    requires Absorb(c, a) == Absorb(d, b)
    ensures a == b ==> c == d
    ensures c == d ==> a == b
  {
    ShiftInjective(c ^ (a as bv16), d ^ (b as bv16), 8);
    XorCancels(c, d, a, b);
  }

  lemma XorCancels(c: bv16, d: bv16, a: bv8, b: bv8)
    requires c ^ (a as bv16) == d ^ (b as bv16)
    ensures a == b ==> c == d
    ensures c == d ==> a == b
  {
  }

  lemma AppendedSame(data: Bytes, b: bv8)
    requires |data| > 0
    ensures data[|data| - 1 := b][..|data| - 1] == data[..|data| - 1]
  {
  }

  /** A change confined to one byte always shows in the check sequence. */
  lemma {:induction false} OneByteErrorShows(data: Bytes, i: nat, b: bv8)
    requires i < |data| && data[i] != b
    ensures Fcs(data[i := b]) != Fcs(data)
    decreases |data|
  {
    hide Absorb;
    var last := |data| - 1;
    var changed := data[i := b];
    if Fcs(changed) == Fcs(data) {
      AbsorbInjective(Fcs(changed[..last]), Fcs(data[..last]), changed[last], data[last]);
      if i < last {
        assert changed[..last] == data[..last][i := b];
        OneByteErrorShows(data[..last], i, b);
      } else {
        AppendedSame(data, b);
      }
    }
  }
}
