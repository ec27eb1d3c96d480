/** Transfer request blocks: the 16-byte records exchanged with the controller, and their
    control-word fields (xhci.rs, GenericTrbEntry). */
module Trbs {
  import opened Results
  import opened Bits

  type U32 = x: nat | x < 0x1_0000_0000

  datatype Trb = Trb(data: nat, option: nat, control: U32)

  const LINK: nat := 6

  function Bool(b: bool): (r: nat) { if b then 1 else 0 }

  // The fields, as arithmetic on the control word.  FieldsAreBits, SetterIsWrite and LinkIsWrites tie
  // each of them to the register accessors the driver calls.
  predicate CycleState(t: Trb) { t.control % 2 == 1 }
  predicate ToggleCycle(t: Trb) { t.control / 2 % 2 == 1 }
  function TrbType(t: Trb): (r: nat) { t.control / 1024 % 64 }
  function SlotId(t: Trb): (r: nat) { t.control / 0x100_0000 }

  function SetCycleState(t: Trb, cycle: bool): (r: Trb)
  {
    t.(control := t.control / 2 * 2 + Bool(cycle))
  }

  /** The cycle bit that marks a slot as owned by the consumer in round r of a ring. */
  predicate Phase(r: nat) { r % 2 == 0 }

  /** `trb_link`: a zeroed TRB with type Link, the ring's address and the toggle bit set. */
  function LinkTrb(base: nat): (r: Trb)
  {
    Trb(base, 0, LINK * 1024 + 2)
  }

  /** Every field reader is `read_bits` at the field's position. */
  lemma FieldsAreBits(t: Trb)
    ensures CycleState(t) <==> ReadBits(t.control, 0, 1) != 0
    ensures ToggleCycle(t) <==> ReadBits(t.control, 1, 1) != 0
    ensures TrbType(t) == ReadBits(t.control, 10, 6)
    ensures SlotId(t) == ReadBits(t.control, 24, 8)
  {
    hide ReadBits, Pow2;
    Powers();
    var c := t.control;
    ReadIsDivMod(c, 0, 1);
    ReadIsDivMod(c, 1, 1);
    ReadIsDivMod(c, 10, 6);
    ReadIsDivMod(c, 24, 8);
  }

  const CONTROL_BITS: nat := 32

  /** The cycle setter is the driver's `write_bits(0, 1, cycle)` on the 32-bit register. */
  lemma SetterIsWrite(t: Trb, cycle: bool)
    ensures t.control < Pow2(CONTROL_BITS)
    ensures WriteBits(CONTROL_BITS, t.control, 0, 1, Bool(cycle)) == Some(SetCycleState(t, cycle).control)
  {
    hide WriteBits, Pow2;
    Powers();
    WriteBitsDivMod(CONTROL_BITS, t.control, 0, 1, Bool(cycle), 1, 2, 2);
    LowBitReplaced(WriteBits(CONTROL_BITS, t.control, 0, 1, Bool(cycle)).value, t.control, Bool(cycle));
  }

  lemma LowBitReplaced(r: nat, c: nat, bit: nat)
    requires r / 1 % 2 == bit && r / 2 == c / 2
    ensures r == c / 2 * 2 + bit
  {
  }

  /** `set_trb_type(Link)` and `set_toggle_cycle(true)` on a zeroed control word build the
      Link TRB. */
  lemma LinkIsWrites(base: nat)
    ensures 0 < Pow2(CONTROL_BITS) && WriteBits(CONTROL_BITS, 0, 10, 6, LINK).Some?
    ensures var typed := WriteBits(CONTROL_BITS, 0, 10, 6, LINK).value;
            typed < Pow2(CONTROL_BITS) && WriteBits(CONTROL_BITS, typed, 1, 1, 1) == Some(LinkTrb(base).control)
  {
    hide WriteBits, Pow2;
    Powers();
    WriteBitsDivMod(CONTROL_BITS, 0, 10, 6, LINK, 1024, 64, 0x1_0000);
    WriteToggle(WriteBits(CONTROL_BITS, 0, 10, 6, LINK).value);
  }

  lemma WriteToggle(typed: nat)
    requires typed / 1024 % 64 == LINK && typed % 1024 == 0 && typed / 0x1_0000 == 0
    ensures typed < Pow2(CONTROL_BITS) && WriteBits(CONTROL_BITS, typed, 1, 1, 1) == Some(LINK * 1024 + 2)
  {
    hide WriteBits, Pow2;
    Powers();
    assert typed == LINK * 1024;
    WriteBitsDivMod(CONTROL_BITS, typed, 1, 1, 1, 2, 2, 4);
  }

  lemma Powers()
    ensures Pow2(0) == 1 && Pow2(1) == 2 && Pow2(2) == 4 && Pow2(6) == 64 && Pow2(8) == 256
    ensures Pow2(10) == 1024 && Pow2(16) == 0x1_0000 && Pow2(24) == 0x100_0000 && Pow2(32) == 0x1_0000_0000
  {
    assert Pow2(8) == 256;
    Pow2Add(2, 8);
    Pow2Add(8, 8);
    Pow2Add(16, 8);
    Pow2Add(16, 16);
  }

  /** Everything the ring proofs use about the cycle bit: a write is read back, keeps every
      other field, absorbs an earlier write, and is void when the bit already has the value. */
  lemma SetCycleFacts(t: Trb, cycle: bool)
    ensures CycleState(SetCycleState(t, cycle)) == cycle
    ensures TrbType(SetCycleState(t, cycle)) == TrbType(t)
    ensures ToggleCycle(SetCycleState(t, cycle)) == ToggleCycle(t)
    ensures SlotId(SetCycleState(t, cycle)) == SlotId(t)
    ensures forall c :: SetCycleState(SetCycleState(t, c), cycle) == SetCycleState(t, cycle)
    ensures CycleState(t) == cycle ==> SetCycleState(t, cycle) == t
  {
    assert SetCycleState(t, cycle).control / 2 == t.control / 2;
    UpperFields(t, SetCycleState(t, cycle));
    assert forall c :: SetCycleState(t, c).control / 2 == t.control / 2;
  }

  /** The fields above bit 0 depend only on the control word's upper bits. */
  lemma UpperFields(a: Trb, b: Trb)
    requires a.control / 2 == b.control / 2
    ensures TrbType(a) == TrbType(b) && SlotId(a) == SlotId(b) && ToggleCycle(a) == ToggleCycle(b)
  {
    assert a.control / 1024 == a.control / 2 / 512 && b.control / 1024 == b.control / 2 / 512;
    assert a.control / 0x100_0000 == a.control / 2 / 0x80_0000 && b.control / 0x100_0000 == b.control / 2 / 0x80_0000;
  }
}
