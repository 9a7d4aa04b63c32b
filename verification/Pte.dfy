/** Page-table entries: a 64-bit word holding a frame address in bits 51..12 and flags elsewhere. */
module Pte {
  import opened Bits

  const PAGE_SIZE: nat := 4096
  const PRESENT: nat := 0x1
  const WRITABLE: nat := 0x2
  const USER: nat := 0x4
  const HUGE_PAGE: nat := 0x80
  const ACCESSED: nat := 0x20
  const DIRTY: nat := 0x40
  const ADDR_MASK: nat := 0x000F_FFFF_FFFF_F000
  const WALK_MASK: nat := 0xFFFF_FFFF_FFFF_F000
  const FRAME_LIMIT: nat := 0x100_0000_0000
  const PAGE_LIMIT: nat := 0x10_0000_0000_0000

  predicate Present(e: nat) { And(e, PRESENT) != 0 }

  predicate UserPage(e: nat) { And(e, USER) != 0 }

  predicate Huge(e: nat) { And(e, HUGE_PAGE) != 0 }

  /** The frame a leaf entry maps (bits 51..12). */
  function LeafFrame(e: nat): nat { And(e, ADDR_MASK) / PAGE_SIZE }

  /** The frame the walker follows: it masks only the low twelve bits. */
  function WalkFrame(e: nat): nat { And(e, WALK_MASK) / PAGE_SIZE }

  /** The entry leads to the table in frame `c`, for the walker's mask and for the leaf mask; its other
      bits, among them the accessed bit the processor sets, do not matter. */
  predicate LinksTo(e: nat, c: nat) {
    Present(e) && !Huge(e) && WalkFrame(e) == c && And(e, ADDR_MASK) == c * PAGE_SIZE
  }

  /** The entry the walker installs for a new table in frame `f`. */
  function TableEntry(f: nat): nat { Or(Or(Or(f * PAGE_SIZE, PRESENT), WRITABLE), USER) }

  /** The entry `MapPage` writes. */
  function LeafEntry(phys: nat, flags: nat): nat { Or(Or(And(phys, ADDR_MASK), flags), PRESENT) }

  lemma AddrField(e: nat)
    ensures And(e, ADDR_MASK) == e / 4096 % FRAME_LIMIT * 4096
    ensures LeafFrame(e) == e / 4096 % FRAME_LIMIT
  {
    Pow2At40();
    Shift12(FRAME_LIMIT - 1);
    Shift12(e);
    AndShift(e, FRAME_LIMIT - 1, 12);
    AndOnes(e / 4096, 40);
    Shift12(e / 4096 % FRAME_LIMIT);
  }

  lemma WalkField(e: nat)
    requires e < WORD_LIMIT
    ensures WalkFrame(e) == e / 4096
  {
    Pow2At52();
    Shift12(PAGE_LIMIT - 1);
    Shift12(e);
    AndShift(e, PAGE_LIMIT - 1, 12);
    AndOnes(e / 4096, 52);
    assert e / 4096 % PAGE_LIMIT == e / 4096;
    Shift12(e / 4096);
  }

  lemma Pow2At52()
    ensures Pow2(52) == PAGE_LIMIT
  {
    Pow2At40();
    assert Pow2(4) == 16;
    hide Pow2;
    Pow2Sum(4, 4);
    Pow2Sum(8, 4);
    Pow2Sum(12, 40);
  }

  lemma Pow2At40()
    ensures Pow2(40) == FRAME_LIMIT
  {
    assert Pow2(5) == 32;
    hide Pow2;
    Pow2Sum(5, 5);
    Pow2Sum(10, 10);
    Pow2Sum(20, 20);
  }

  lemma SmallFlagBits(k: nat)
    ensures Bit(PRESENT, k) <==> k == 0
    ensures Bit(WRITABLE, k) <==> k == 1
    ensures Bit(USER, k) <==> k == 2
    ensures Bit(HUGE_PAGE, k) <==> k == 7
  {
    FlagWeights();
    Pow2Bit(0, k);
    Pow2Bit(1, k);
    Pow2Bit(2, k);
    Pow2Bit(7, k);
  }

  /** The flag tests read single bits. */
  lemma FlagTests(e: nat)
    ensures Present(e) <==> Bit(e, 0)
    ensures UserPage(e) <==> Bit(e, 2)
    ensures Huge(e) <==> Bit(e, 7)
  {
    FlagWeights();
    AndPow2(e, 0);
    AndPow2(e, 2);
    AndPow2(e, 7);
  }

  /** A table entry is present, is not a huge page, and both the walker's and the leaf mask
      give back the table's frame. */
  lemma TableEntryFacts(f: nat)
    requires f < FRAME_LIMIT
    ensures TableEntry(f) == f * PAGE_SIZE + 7
    ensures Present(TableEntry(f)) && !Huge(TableEntry(f))
    ensures WalkFrame(TableEntry(f)) == f == LeafFrame(TableEntry(f))
  {
    hide And, Or, Bit, Pow2;
    TableEntryValue(f);
    var e := TableEntry(f);
    AddrField(e);
    WalkField(e);
    FlagTests(e);
    FlagWeights();
    BitByDiv(e, 0);
    BitByDiv(e, 7);
  }

  /** What the walker installs leads to its table. */
  lemma TableEntryLinks(f: nat)
    requires f < FRAME_LIMIT
    ensures LinksTo(TableEntry(f), f)
  {
    hide And, Or, TableEntry, WalkFrame, Present, Huge;
    TableEntryFacts(f);
    AddrField(TableEntry(f));
  }

  lemma TableEntryValue(f: nat)
    ensures TableEntry(f) == f * PAGE_SIZE + 7
  {
    hide Or, Bit, Pow2;
    var b := f * PAGE_SIZE;
    FlagWeights();
    BitByDiv(b, 0);
    OrPow2(b, 0);
    BitByDiv(b + 1, 1);
    OrPow2(b + 1, 1);
    BitByDiv(b + 3, 2);
    OrPow2(b + 3, 2);
  }

  lemma FlagWeights()
    ensures Pow2(0) == PRESENT && Pow2(1) == WRITABLE && Pow2(2) == USER && Pow2(7) == HUGE_PAGE
  {
    assert Pow2(3) == 8 && Pow2(4) == 16;
    Pow2Sum(3, 4);
  }

  /** An all-zero word maps nothing. */
  lemma ZeroEntry()
    ensures !Present(0)
  {
  }

  /** The address `MapPage` stores is the requested one with any address bits of the flags or-ed
      in; with flags that stay out of bits 51..12 it is exactly the requested one. */
  lemma LeafEntryFrame(phys: nat, flags: nat)
    requires phys % PAGE_SIZE == 0 && phys <= ADDR_MASK
    ensures Present(LeafEntry(phys, flags))
    ensures And(LeafEntry(phys, flags), ADDR_MASK) == Or(phys, And(flags, ADDR_MASK))
    ensures And(flags, ADDR_MASK) == 0 ==> LeafFrame(LeafEntry(phys, flags)) == phys / PAGE_SIZE
  {
    hide And, Or, Bit, LeafEntry, Present;
    MaskKeeps(phys);
    var e := LeafEntry(phys, flags);
    forall k: nat ensures Bit(And(e, ADDR_MASK), k) == Bit(Or(phys, And(flags, ADDR_MASK)), k) {
      LeafBits(phys, flags, k);
    }
    Extensional(And(e, ADDR_MASK), Or(phys, And(flags, ADDR_MASK)));
    FlagTests(e);
    LeafBits(phys, flags, 0);
    OrZero(phys);
  }

  lemma MaskKeeps(phys: nat)
    requires phys % PAGE_SIZE == 0 && phys <= ADDR_MASK
    ensures And(phys, ADDR_MASK) == phys
  {
    hide And;
    AddrField(phys);
  }

  lemma OrZero(a: nat)
    ensures Or(a, 0) == a
  {
  }

  lemma LeafBits(phys: nat, flags: nat, k: nat)
    requires And(phys, ADDR_MASK) == phys
    ensures Bit(LeafEntry(phys, flags), k) <==> Bit(phys, k) || Bit(flags, k) || k == 0
    ensures Bit(ADDR_MASK, k) <== Bit(phys, k)
    ensures Bit(And(LeafEntry(phys, flags), ADDR_MASK), k) <==> Bit(Or(phys, And(flags, ADDR_MASK)), k)
  {
    SmallFlagBits(k);
    assert !Bit(ADDR_MASK, 0);
    MaskedOr(phys, flags, ADDR_MASK, PRESENT, k);
  }

  lemma MaskedOr(a: nat, b: nat, mask: nat, bit: nat, k: nat)
    requires And(a, mask) == a && (Bit(bit, k) ==> !Bit(mask, k))
    ensures Bit(Or(Or(And(a, mask), b), bit), k) <==> Bit(a, k) || Bit(b, k) || Bit(bit, k)
    ensures Bit(a, k) ==> Bit(mask, k)
    ensures Bit(And(Or(Or(And(a, mask), b), bit), mask), k) <==> Bit(Or(a, And(b, mask)), k)
  {
    AndBit(Or(Or(a, b), bit), mask, k);
    OrBit(Or(a, b), bit, k);
    OrBit(a, b, k);
    OrBit(a, And(b, mask), k);
    AndBit(b, mask, k);
    AndBit(a, mask, k);
  }

  /** Outside the address field the stored entry carries exactly the caller's flag bits, plus present. */
  lemma LeafEntryFlags(phys: nat, flags: nat, k: nat)
    requires phys % PAGE_SIZE == 0 && phys <= ADDR_MASK
    requires !Bit(ADDR_MASK, k)
    ensures Bit(LeafEntry(phys, flags), k) <==> Bit(flags, k) || k == 0
  {
    hide LeafEntry, And, Or, Bit;
    MaskKeeps(phys);
    LeafBits(phys, flags, k);
  }

  // ---- Bits outside the address field ----

  lemma OutsideField(k: nat)
    requires k < 12 || 52 <= k < 64
    ensures !Bit(ADDR_MASK, k)
  {
    hide Bit, Pow2;
    BitByDiv(ADDR_MASK, k);
    Weight(k);
  }

  /** The weights of the bits outside the address field. */
  lemma Weight(k: nat)
    requires k < 12 || 52 <= k < 64
    ensures Pow2(k) == [1, 2, 4, 8, 16, 32, 64, 128, 256, 512, 1024, 2048][if k < 12 then k else k - 52]
                       * (if k < 12 then 1 else 0x10_0000_0000_0000)
  {
    Pow2At52();
    SmallWeight(if k < 12 then k else k - 52);
    hide Pow2;
    if k >= 52 { Pow2Sum(52, k - 52); }
  }

  lemma SmallWeight(k: nat)
    requires k < 12
    ensures Pow2(k) == [1, 2, 4, 8, 16, 32, 64, 128, 256, 512, 1024, 2048][k]
  {
    assert Pow2(4) == 16;
    assert Pow2(8) == 16 * Pow2(4);
    assert Pow2(11) == 8 * Pow2(8);
  }

  // ---- Bits the processor sets ----

  /** The bits the processor may set in an entry it uses: accessed, and dirty when it writes. */
  predicate UseBit(b: nat) { b == ACCESSED || b == DIRTY }

  /** Or-ing in bits outside a mask does not show through it. */
  lemma OrOutsideMask(e: nat, b: nat, m: nat)
    requires And(m, b) == 0
    ensures And(Or(e, b), m) == And(e, m)
  {
    hide And, Or, Bit;
    forall k: nat ensures Bit(And(Or(e, b), m), k) == Bit(And(e, m), k) {
      AndBit(Or(e, b), m, k);
      AndBit(e, m, k);
      OrBit(e, b, k);
      AndBit(m, b, k);
      ZeroBit(k);
    }
    Extensional(And(Or(e, b), m), And(e, m));
  }

  lemma UseBitClear(b: nat, m: nat)
    requires UseBit(b) && m / 32 % 4 == 0
    ensures And(m, b) == 0
  {
    hide And, Bit, Pow2;
    UseWeights();
    AndPow2(m, 5);
    AndPow2(m, 6);
    BitByDiv(m, 5);
    BitByDiv(m, 6);
  }

  lemma UseWeights()
    ensures Pow2(5) == ACCESSED && Pow2(6) == DIRTY
  {
    assert Pow2(3) == 8;
    Pow2Sum(3, 2);
    Pow2Sum(3, 3);
  }

  /** Using an entry changes neither what it leads to nor whether it is present or huge. */
  lemma UseKeeps(e: nat, b: nat)
    requires UseBit(b)
    ensures Present(Or(e, b)) == Present(e) && Huge(Or(e, b)) == Huge(e)
    ensures WalkFrame(Or(e, b)) == WalkFrame(e) && And(Or(e, b), ADDR_MASK) == And(e, ADDR_MASK)
    ensures forall c :: LinksTo(e, c) ==> LinksTo(Or(e, b), c)
  {
    hide And, Or;
    UseSeen(e, b, PRESENT);
    UseSeen(e, b, HUGE_PAGE);
    UseSeen(e, b, ADDR_MASK);
    UseSeen(e, b, WALK_MASK);
  }

  lemma UseSeen(e: nat, b: nat, m: nat)
    requires UseBit(b) && m / 32 % 4 == 0
    ensures And(Or(e, b), m) == And(e, m)
  {
    UseBitClear(b, m);
    OrOutsideMask(e, b, m);
  }
}
