/** Page-table entries: the masks of paging.c and what they select. */
module PageEntry {
  import opened Machine
  import opened Bits

  const PAGE_PRESENT: Word := 1
  const PAGE_WRITE: Word := 2
  const PAGE_HUGE: Word := 0x80
  const PAGE_NX: Word := 0x8000_0000_0000_0000
  const PAGE_ADDR_MASK: Word := 0x000F_FFFF_FFFF_F000

  predicate Present(e: Word) { And(e, PAGE_PRESENT) != 0 }

  predicate Huge(e: Word) { And(e, PAGE_HUGE) != 0 }

  // Bits 51:12, the address field.
  function AddrOf(e: Word): Word { And(e, PAGE_ADDR_MASK) }

  // Everything but the address field.
  function FlagsOf(e: Word): Word { And(e, Not64(PAGE_ADDR_MASK)) }

  // The table frame an entry points to.
  function ChildFrame(e: Word): nat { AddrOf(e) / 4096 }

  // Index 9-bit group of a virtual address: bits 47:39 at level 4 down to
  // bits 20:12 at level 1.
  function Idx(va: Word, level: nat): (i: nat)
    requires 1 <= level <= 4
    ensures i < 512
  {
    And(Shr(va, 12 + 9 * (level - 1)), 0x1FF)
  }

  // child | (e & ~PAGE_ADDR_MASK)
  function Relocated(child: Word, e: Word): Word
    requires Or(child, FlagsOf(e)) < TWO64
  {
    Or(child, FlagsOf(e))
  }

  // ------------------------------------------------------------ arithmetic

  lemma AddrArithmetic(e: Word)
    ensures AddrOf(e) == e / 4096 % 0x100_0000_0000 * 4096
  {
    var q := Pow2(40);
    assert q == 0x100_0000_0000 && Pow2(12) == 4096 by { PowerTable(); }
    ShiftsAreArithmetic(q - 1, 12);
    ShiftsAreArithmetic(e, 12);
    AndShiftedMask(e, q - 1, 12);
    AndLowMask(Shr(e, 12), 40);
    ShiftsAreArithmetic(And(Shr(e, 12), q - 1), 12);
  }

  lemma IdxArithmetic(va: Word)
    ensures Idx(va, 1) == va / 0x1000 % 512 && Idx(va, 2) == va / 0x20_0000 % 512
    ensures Idx(va, 3) == va / 0x4000_0000 % 512 && Idx(va, 4) == va / 0x80_0000_0000 % 512
  {
    assert Pow2(9) == 512 && Pow2(12) == 0x1000 && Pow2(21) == 0x20_0000;
    assert Pow2(24) == 0x100_0000 && Pow2(30) == 0x4000_0000 && Pow2(39) == 0x80_0000_0000;
    ShiftsAreArithmetic(va, 12);
    ShiftsAreArithmetic(va, 21);
    ShiftsAreArithmetic(va, 30);
    ShiftsAreArithmetic(va, 39);
    AndLowMask(va / 0x1000, 9);
    AndLowMask(va / 0x20_0000, 9);
    AndLowMask(va / 0x4000_0000, 9);
    AndLowMask(va / 0x80_0000_0000, 9);
  }

  lemma ChildArithmetic(e: Word)
    ensures ChildFrame(e) == e / 4096 % 0x100_0000_0000
  {
    hide AddrOf;
    AddrArithmetic(e);
  }

  lemma FlagsArithmetic(e: Word)
    ensures FlagsOf(e) == e - AddrOf(e)
  {
    AndNotSplits(e, PAGE_ADDR_MASK);
  }

  lemma BitArithmetic(e: Word)
    ensures Present(e) <==> e % 2 == 1
    ensures Huge(e) <==> e / 128 % 2 == 1
  {
    assert Pow2(0) == 1 && Pow2(7) == 128;
    AndBit(e, 0);
    AndBit(e, 7);
  }

  // An aligned address below 2^52 is its own address field.
  lemma AlignedAddress(a: Word)
    requires a % 4096 == 0 && a < 0x10_0000_0000_0000
    ensures AddrOf(a) == a
  {
    hide AddrOf;
    AddrArithmetic(a);
    AlignedField(a);
  }

  lemma AlignedField(a: nat)
    requires a % 4096 == 0 && a < 0x10_0000_0000_0000
    ensures a / 4096 % 0x100_0000_0000 * 4096 == a
  {
    assert a / 4096 < 0x100_0000_0000;
  }

  // Joins an address and flags that do not overlap.
  lemma JoinedEntry(a: Word, flags: Word)
    requires a % 4096 == 0 && a < 0x10_0000_0000_0000 && AddrOf(flags) == 0
    ensures Or(a, flags) == a + flags < TWO64
    ensures AddrOf(a + flags) == a && FlagsOf(a + flags) == flags
  {
    AlignedAddress(a);
    PowerTable();
    OrOfPieces(a, flags, PAGE_ADDR_MASK, 64);
    FlagsArithmetic(a + flags);
  }

  lemma FlagsHaveNoAddress(e: Word)
    ensures AddrOf(FlagsOf(e)) == 0
  {
    PowerTable();
    AndComplement(e, PAGE_ADDR_MASK, 64);
  }

  lemma DivOfSum(f: nat, b: nat)
    ensures (f + 128 * b) / 128 == f / 128 + b
  {
  }

  lemma EvenSum(x: nat, y: nat)
    ensures (x + 2 * y) % 2 == x % 2
  {
  }

  // Adding whole pages does not change bits 0 and 7.
  lemma LowBitsOfSum(f: nat, a: nat)
    ensures (f + 4096 * a) % 2 == f % 2
    ensures (f + 4096 * a) / 128 % 2 == f / 128 % 2
  {
    EvenSum(f, 2048 * a);
    DivOfSum(f, 32 * a);
    EvenSum(f / 128, 16 * a);
  }

  // Present and huge are flag bits.
  lemma FlagBits(e: Word, e': Word)
    requires FlagsOf(e) == FlagsOf(e')
    ensures Present(e) == Present(e') && Huge(e) == Huge(e')
  {
    FlagsArithmetic(e);
    FlagsArithmetic(e');
    AddrArithmetic(e);
    AddrArithmetic(e');
    BitArithmetic(e);
    BitArithmetic(e');
    LowBitsOfSum(FlagsOf(e), e / 4096 % 0x100_0000_0000);
    LowBitsOfSum(FlagsOf(e), e' / 4096 % 0x100_0000_0000);
  }

  /** A relocated entry differs from the original in its address only. */
  lemma RelocatedEntry(child: Word, e: Word)
    requires child % 4096 == 0 && child < 0x10_0000_0000_0000
    ensures Or(child, FlagsOf(e)) < TWO64
    ensures AddrOf(Relocated(child, e)) == child
    ensures FlagsOf(Relocated(child, e)) == FlagsOf(e)
    ensures Present(Relocated(child, e)) == Present(e) && Huge(Relocated(child, e)) == Huge(e)
  {
    FlagsHaveNoAddress(e);
    JoinedEntry(child, FlagsOf(e));
    FlagBits(Relocated(child, e), e);
  }
}
