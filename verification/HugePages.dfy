/** A kernel half with a huge page, where the code's walk and the processor's part. */
module HugePages {
  import opened Common
  import opened Bits
  import opened Pte
  import opened PageTables
  import opened Spaces
  import opened Vmm

  /** A present entry with the page-size bit, for the memory from frame 4 on. */
  const HUGE_ENTRY: nat := 0x4081

  /** The first page of the kernel half. */
  const KERNEL_VPN: nat := 0x8_0000_0000

  function OneEntry(i: nat, e: nat): (t: seq<nat>)
    requires i < 512
    ensures |t| == 512 && forall j :: 0 <= j < 512 ==> t[j] == if j == i then e else 0
  {
    ZeroFrame()[i := e]
  }

  /** Frame 1 holds the kernel space, frame 2 its PML4, frame 3 a PDPT with one huge page, frame 4 data. */
  ghost function Machine(): State {
    var mem: Mem := map[0 := ZeroFrame(), 1 := ZeroFrame(), 2 := OneEntry(256, TableEntry(3)),
                        3 := OneEntry(0, HUGE_ENTRY), 4 := ZeroFrame()];
    State(mem, {0, 1, 2, 3}, 5, map[1 := Space(2, 1)], 1, map[3 := Info(3, 2, 2, 256, false)])
  }

  lemma HugeEntryFacts()
    ensures Present(HUGE_ENTRY) && Huge(HUGE_ENTRY) && WalkFrame(HUGE_ENTRY) == 4
  {
    hide And, Bit, Pow2;
    FlagTests(HUGE_ENTRY);
    FlagWeights();
    BitByDiv(HUGE_ENTRY, 0);
    BitByDiv(HUGE_ENTRY, 7);
    WalkField(HUGE_ENTRY);
  }

  lemma KernelIndices()
    ensures Ix(KERNEL_VPN, 4) == 256 && Ix(KERNEL_VPN, 3) == 0 && Ix(KERNEL_VPN, 2) == 0 && Ix(KERNEL_VPN, 1) == 0
  {
  }

  lemma MachineTree()
    ensures Machine().Roots() == {2} && TreeInv(Machine().mem, Machine().tables, {2})
  {
    hide Present, Huge, WalkFrame, TableEntry, Ix;
    HugeEntryFacts();
    TableEntryFacts(3);
    ZeroEntry();
    var s := Machine();
    assert s.spaces[1].pml4 == 2;
    forall r, i | r in {2} && 0 <= i < 512 ensures RootLink(s.mem, s.tables, r, i) {}
    forall t, i | t in s.tables && 0 <= i < 512 ensures ChildLink(s.mem, s.tables, t, i) {}
  }

  lemma MachineInv()
    ensures Inv(Machine())
  {
    hide TreeInv, ZeroFrame, OneEntry, TableEntry;
    MachineTree();
    var s := Machine();
    assert s.Roots() == {2};
    assert forall f: nat :: s.Owned(f) ==> f == 1 || f == 2 || f == 3;
  }

  lemma MachineWords()
    ensures var m := Machine().mem; Rd(m, 2, 256) == TableEntry(3) && Rd(m, 3, 0) == HUGE_ENTRY && Rd(m, 4, 0) == 0
  {
    hide TableEntry;
  }

  lemma WalksPart(m: Mem)
    requires Rd(m, 2, 256) == TableEntry(3) && Rd(m, 3, 0) == HUGE_ENTRY && Rd(m, 4, 0) == 0
    ensures Translate(m, 2, KERNEL_VPN) == BigPage(HUGE_ENTRY) && CodePhys(m, 2, KERNEL_VPN, 0) == 0
  {
    hide Present, Huge, WalkFrame, TableEntry, Ix, Rd, PhysOf, LeafMapping;
    KernelIndices();
    HugeEntryFacts();
    TableEntryFacts(3);
    ZeroEntry();
    assert Walk(m, 2, KERNEL_VPN, 3) == Table(3);
    assert Walk(m, 2, KERNEL_VPN, 2) == Big(HUGE_ENTRY);
    assert CodeWalk(m, 2, KERNEL_VPN, 3) == Some(3);
    assert CodeWalk(m, 2, KERNEL_VPN, 2) == Some(4);
    assert CodeWalk(m, 2, KERNEL_VPN, 1) == None;
  }

  /** The machine satisfies the invariant, and its huge page is mapped: yet the code's lookup goes on into
      the data behind it and answers that nothing is there. */
  lemma LookupMissesHugePage()
    ensures var s := Machine();
      && Inv(s) && 2 in s.Roots() && !UserHalf(KERNEL_VPN)
      && Translate(s.mem, 2, KERNEL_VPN) == BigPage(HUGE_ENTRY)
      && CodePhys(s.mem, 2, KERNEL_VPN, 0) == 0
  {
    hide Inv, Machine, Translate, CodePhys;
    MachineTree();
    MachineInv();
    KernelIndices();
    MachineWords();
    WalksPart(Machine().mem);
  }
}
