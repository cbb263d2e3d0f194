/** Page-table entries of kernel/larch/paging.rs: the setters and getters of
    PageTableEntry on a 64-bit value, and the bits they leave alone. */
module PageEntry {
  import opened Bits
  import opened Options
  import opened RadixTree

  /** Bits 51:12, the physical address in an entry: 0x000F_FFFF_FFFF_F000. */
  function AddressMask(): nat { Mask(12, 40) }

  lemma MaskBelow()
    ensures AddressMask() == 0x000F_FFFF_FFFF_F000 < Pow2(64)
  {
    Pow2Wide();
    assert Pow2(12) == 4096 by { Pow2Values(); }
    MaskIsShifted(12, 40);
    ShlIsTimes(Pow2(40) - 1, 12);
  }

  lemma {:induction false} MaskIsShifted(lo: nat, len: nat)
    ensures Mask(lo, len) == Shl(Pow2(len) - 1, lo)
  {
    if lo > 0 { MaskIsShifted(lo - 1, len); }
  }

  function SetAddress(value: nat, addr: nat): nat {
    MaskBelow();
    Or(And(value, Not(64, AddressMask())), And(addr, AddressMask()))
  }

  /** set_present, set_writable and set_user are this at bits 0, 1 and 2. */
  function SetBitTo(value: nat, bit: nat, on: bool): nat
    requires bit < 3
  {
    FlagBelow(bit);
    if on then Or(value, Pow2(bit)) else And(value, Not(64, Pow2(bit)))
  }

  function SetPresent(value: nat, present: bool): nat { SetBitTo(value, 0, present) }

  function SetWritable(value: nat, writable: bool): nat { SetBitTo(value, 1, writable) }

  function SetUser(value: nat, user: bool): nat { SetBitTo(value, 2, user) }

  predicate IsPresent(value: nat) { And(value, 1) != 0 }

  function PhysicalAddress(value: nat): nat { And(value, AddressMask()) }

  lemma FlagBelow(bit: nat)
    requires bit < 3
    ensures Pow2(bit) < Pow2(64)
  {
    Pow2Monotone(bit, 3);
    Pow2Monotone(4, 64);
  }

  // ------------------------------------------------- what the setters change

  lemma BitOfSetBit(value: nat, bit: nat, on: bool, k: nat)
    requires bit < 3 && k < 64
    ensures Bit(SetBitTo(value, bit, on), k) == if k == bit then on else Bit(value, k)
  {
    FlagBelow(bit);
    BitOfPow2(bit, k);
    if on {
      BitOr(value, Pow2(bit), k);
    } else {
      BitAnd(value, Not(64, Pow2(bit)), k);
      BitNot(64, Pow2(bit), k);
    }
  }

  lemma BitOfSetAddress(value: nat, addr: nat, k: nat)
    requires k < 64
    ensures Bit(SetAddress(value, addr), k) == if 12 <= k < 52 then Bit(addr, k) else Bit(value, k)
  {
    MaskBelow();
    BitOr(And(value, Not(64, AddressMask())), And(addr, AddressMask()), k);
    BitAnd(value, Not(64, AddressMask()), k);
    BitNot(64, AddressMask(), k);
    BitAnd(addr, AddressMask(), k);
    BitMask(12, 40, k);
  }

  /** The entry map_page leaves behind, from the old value of the slot. */
  function Compose(was: nat, addr: nat, writable: bool, user: bool): nat {
    SetUser(SetWritable(SetPresent(SetAddress(was, addr), true), writable), user)
  }

  lemma BitOfCompose(was: nat, addr: nat, writable: bool, user: bool, k: nat)
    requires k < 64
    ensures Bit(Compose(was, addr, writable, user), k) ==
            if k == 0 then true else if k == 1 then writable else if k == 2 then user
            else if 12 <= k < 52 then Bit(addr, k) else Bit(was, k)
  {
    var a := SetAddress(was, addr);
    var p := SetPresent(a, true);
    var w := SetWritable(p, writable);
    BitOfSetAddress(was, addr, k);
    BitOfSetBit(a, 0, true, k);
    BitOfSetBit(p, 1, writable, k);
    BitOfSetBit(w, 2, user, k);
  }

  lemma AddressOfCompose(was: nat, addr: nat, writable: bool, user: bool)
    ensures PhysicalAddress(Compose(was, addr, writable, user)) == PhysicalAddress(addr)
  {
    var e := Compose(was, addr, writable, user);
    forall k: nat
      ensures Bit(And(e, AddressMask()), k) == Bit(And(addr, AddressMask()), k)
    {
      BitAnd(e, AddressMask(), k);
      BitAnd(addr, AddressMask(), k);
      BitMask(12, 40, k);
      if k < 64 { BitOfCompose(was, addr, writable, user, k); }
    }
    Extensionality(And(e, AddressMask()), And(addr, AddressMask()));
  }

  // --------------------------------------------- how the processor reads them

  datatype Rights = Rights(writable: bool, user: bool, large: bool)

  /** Section 4.5 of volume 3A of the Intel SDM: bit 0 present, bit 1 R/W, bit 2
      U/S, bit 7 page size, bits 51:12 the frame. */
  function Decode(e: nat): Option<Slot<Rights>> {
    if Bit(e, 0) then Some(Slot(Shr(e, 12) % 0x100_0000_0000, Rights(Bit(e, 1), Bit(e, 2), PageSize(e)))) else None
  }

  predicate PageSize(e: nat) { Bit(e, 7) }

  function FrameNumber(addr: nat): nat { addr / PAGE % 0x100_0000_0000 }

  lemma PresentBit(e: nat)
    ensures IsPresent(e) <==> Bit(e, 0)
  {
    assert Pow2(1) == 2;
    AndLow(e, 1);
  }

  lemma AddressField(e: nat)
    ensures PhysicalAddress(e) == FrameNumber(e) * PAGE
    ensures Shr(e, 12) % 0x100_0000_0000 == FrameNumber(e)
  {
    assert Pow2(40) == 0x100_0000_0000 by { Pow2Wide(); }
    assert Pow2(12) == PAGE by { Pow2Values(); }
    ShrIsDivide(e, 12);
    AndMask(e, 12, 40);
    ShlIsTimes(FrameNumber(e), 12);
  }

  /** The processor sees in the composed entry exactly what was asked for. */
  lemma ComposeDecodes(was: nat, addr: nat, writable: bool, user: bool)
    ensures Decode(Compose(was, addr, writable, user)) ==
            Some(Slot(FrameNumber(addr), Rights(writable, user, PageSize(was))))
    ensures PageSize(Compose(was, addr, writable, user)) == PageSize(was)
  {
    var e := Compose(was, addr, writable, user);
    assert FrameNumber(e) == FrameNumber(addr) by {
      AddressOfCompose(was, addr, writable, user);
      AddressField(e);
      AddressField(addr);
    }
    AddressField(e);
    BitOfCompose(was, addr, writable, user, 0);
    BitOfCompose(was, addr, writable, user, 1);
    BitOfCompose(was, addr, writable, user, 2);
    BitOfCompose(was, addr, writable, user, 7);
  }
}
