/** The virtual memory manager: address spaces, the page-table walker and the mapper. */
module Vmm {
  import opened Common
  import opened Bits
  import opened Pte
  import opened PageTables
  import opened Spaces
  import opened Teardown
  import Pmm

  /** The page number of an address: bits 47..12. */
  function VpnOf(va: nat): (v: nat)
    ensures v < VPN_LIMIT
  {
    va / 4096 % VPN_LIMIT
  }

  class Manager {
    const pmm: Pmm.Allocator
    const kernel: nat
    var mem: Mem
    var spaces: map<nat, Space>
    ghost var tables: map<nat, Info>

    ghost function Snap(): State
      requires pmm.Shape()
      reads this, pmm.bitmap
    {
      State(mem, pmm.Used(), pmm.totalPages, spaces, kernel, tables)
    }

    ghost predicate Valid()
      reads this, pmm, pmm.bitmap
    {
      pmm.Valid() && Inv(Snap())
    }

    /** Takes over the boot PML4 as the kernel space. The boot tables must already form a tree of
        used frames with an empty user half. */
    constructor (pmm: Pmm.Allocator, mem: Mem, bootPml4: nat, ghost bootTables: map<nat, Info>)
      requires pmm.Valid() && pmm.freePages > 0 && pmm.totalPages <= FRAME_LIMIT
      requires TreeInv(mem, bootTables, {bootPml4})
      requires forall f :: 0 <= f < pmm.totalPages ==> f in mem && |mem[f]| == 512
      requires forall f :: f in bootTables || f == bootPml4 ==> f in pmm.Used() && f != 0
      modifies pmm, pmm.bitmap
      ensures this.pmm == pmm && Valid() && this.mem == mem && tables == bootTables
      ensures spaces == map[kernel := Space(bootPml4, 1)] && kernel !in old(pmm.Used())
      ensures pmm.Used() == old(pmm.Used()) + {kernel}
    {
      hide Pmm.UsedIn, Pmm.Set, Pmm.NextFit, TreeInv, Inv;
      var phys := pmm.AllocPage();
      var k := phys / 4096;
      this.pmm := pmm;
      this.kernel := k;
      this.mem := mem;
      this.spaces := map[k := Space(bootPml4, 1)];
      this.tables := bootTables;
      new;
      BootInv(Snap(), bootPml4);
    }

    /** The walker. With `create`, absent tables on the way are allocated, zeroed and linked. It does not
        look at the page-size bit, so without `create` it is the walk the code makes, and the
        processor's wherever no huge page lies on the way. */
    method GetPageTable(root: nat, va: nat, create: bool) returns (r: Option<nat>)
      requires Valid() && root in Snap().Roots()
      requires create ==> !Walk(mem, root, VpnOf(va), 1).Big?
      modifies this`mem, this`tables, pmm, pmm.bitmap
      ensures Valid() && Grew(old(Snap()), Snap())
      ensures SameTranslations(old(mem), mem, old(Snap()).Roots())
      ensures RootsKept(old(Snap()), Snap(), root)
      ensures r.Some? && !Walk(old(mem), root, VpnOf(va), 1).Big? ==> Walk(mem, root, VpnOf(va), 1) == Table(r.value)
      ensures !create ==> Snap() == old(Snap()) && r == CodeWalk(mem, root, VpnOf(va), 1)
      ensures !create && !Walk(mem, root, VpnOf(va), 1).Big? ==> (r.Some? <==> Walk(mem, root, VpnOf(va), 1).Table?)
      ensures create ==> (r.Some? <==> Missing(old(mem), root, VpnOf(va)) <= old(pmm.freePages))
      ensures create && r.Some? ==> pmm.freePages == old(pmm.freePages) - Missing(old(mem), root, VpnOf(va))
      ensures create && r == None ==> pmm.freePages == 0 && Missing(mem, root, VpnOf(va)) > 0
    {
      hide Inv, Grew, SameTranslations, RootsKept;
      ghost var vpn := VpnOf(va);
      GrewRefl(Snap());
      RootsKeptRefl(Snap(), root);
      if !create {
        CodeWalkIff(mem, root, vpn);
        r := FollowTables(root, va);
        return;
      }
      var table, level := root, 4;
      while level > 1
        invariant 1 <= level <= 4
        invariant Valid() && Grew(old(Snap()), Snap())
        invariant SameTranslations(old(mem), mem, old(Snap()).Roots())
        invariant root in Snap().Roots() && RootsKept(old(Snap()), Snap(), root)
        invariant Walk(mem, root, vpn, level) == Table(table) && !Walk(mem, root, vpn, 1).Big?
        invariant Missing(mem, root, vpn) - pmm.freePages == Missing(old(mem), root, vpn) - old(pmm.freePages)
      {
        ghost var s := Snap();
        var ok := Descend(root, table, va, level);
        RootsKeptTrans(old(Snap()), s, Snap(), root);
        GrewSameTrans(old(Snap()), s, Snap());
        if !ok {
          return None;
        }
        table := WalkFrame(mem[table][Ix(VpnOf(va), level)]);
        level := level - 1;
      }
      return Some(table);
    }

    /** The walk without creation: masks each present entry and goes on. */
    method FollowTables(root: nat, va: nat) returns (r: Option<nat>)
      ensures r == CodeWalk(mem, root, VpnOf(va), 1)
    {
      hide Present, WalkFrame, Ix, VpnOf;
      var table, level := root, 4;
      while level > 1
        invariant 1 <= level <= 4 && CodeWalk(mem, root, VpnOf(va), level) == Some(table)
      {
        var e := Rd(mem, table, Ix(VpnOf(va), level));
        if !Present(e) {
          AbsentForGood(mem, root, VpnOf(va), level - 1);
          return None;
        }
        table := WalkFrame(e);
        level := level - 1;
      }
      return Some(table);
    }

    /** Clears all 512 entries of a frame. */
    method ZeroTable(f: nat)
      requires f in mem && |mem[f]| == 512
      modifies this`mem
      ensures mem == old(mem)[f := ZeroFrame()]
    {
      var i := 0;
      while i < 512
        invariant i <= 512 && f in mem && |mem[f]| == 512
        invariant mem == old(mem)[f := mem[f]]
        invariant forall j :: 0 <= j < i ==> mem[f][j] == 0
      {
        mem := Put(mem, f, i, 0);
        i := i + 1;
      }
      assert mem[f] == ZeroFrame();
    }

    /** One turn of the walker's loop: makes sure the entry for `va` at `level` is present. */
    method Descend(ghost root: nat, table: nat, va: nat, level: nat) returns (ok: bool)
      requires Valid() && root in Snap().Roots() && 2 <= level <= 4
      requires Walk(mem, root, VpnOf(va), level) == Table(table)
      requires !Walk(mem, root, VpnOf(va), 1).Big?
      modifies this`mem, this`tables, pmm, pmm.bitmap
      ensures Valid() && Grew(old(Snap()), Snap())
      ensures SameTranslations(old(mem), mem, old(Snap()).Roots())
      ensures table in mem && |mem[table]| == 512
      ensures ok ==> Walk(mem, root, VpnOf(va), level - 1) == Table(WalkFrame(mem[table][Ix(VpnOf(va), level)]))
      ensures !Walk(mem, root, VpnOf(va), 1).Big?
      ensures ok ==> Missing(mem, root, VpnOf(va)) - pmm.freePages
                     == Missing(old(mem), root, VpnOf(va)) - old(pmm.freePages)
      ensures !ok ==> Missing(old(mem), root, VpnOf(va)) > old(pmm.freePages) == pmm.freePages == 0
      ensures !ok ==> Snap() == old(Snap())
      ensures RootsKept(old(Snap()), Snap(), root)
    {
      hide Inv, Grew, SameTranslations, CanInstall, RootsKept;
      RootsKeptRefl(Snap(), root);
      ghost var vpn := VpnOf(va);
      GrewRefl(Snap());
      TableInMem(Snap(), root, vpn, level);
      var i := Ix(VpnOf(va), level);
      if Present(mem[table][i]) {
        NotBigBelow(mem, root, vpn, level);
        return true;
      }
      AbsentBelow(mem, root, vpn, level);
      ghost var f;
      ok, f := AddTable(table, i);
      if ok {
        InstallOutcome(old(Snap()), root, vpn, level, f, Snap());
        InstallRoots(old(Snap()), root, vpn, level, f, Snap());
      }
    }

    /** Allocates a frame, clears it and links it into an absent entry. */
    method AddTable(table: nat, i: nat) returns (ok: bool, ghost f: nat)
      requires Valid() && table in mem && |mem[table]| == 512 && i < 512
      requires table in tables || table in Snap().Roots()
      requires LevelOf(tables, table) > 1 && !Present(Rd(mem, table, i))
      modifies this`mem, this`tables, pmm, pmm.bitmap
      ensures pmm.Valid() && (ok <==> old(pmm.freePages) > 0)
      ensures ok ==> f !in old(Snap()).used && 0 < f < pmm.totalPages && f != table
      ensures pmm.freePages == if ok then old(pmm.freePages) - 1 else old(pmm.freePages)
      ensures Snap() ==
        if ok then old(Snap()).(mem := Installed(old(mem), table, i, f), used := old(Snap()).used + {f},
                                tables := old(tables)[f := ChildInfo(old(tables), table, i)])
        else old(Snap())
    {
      hide Pmm.UsedIn, Pmm.Set, Pmm.NextFit, TreeInv;
      f := 0;
      var phys := pmm.AllocPage();
      if phys == 0 {
        return false, 0;
      }
      var frame := phys / 4096;
      assert phys == frame * 4096;
      assert old(Snap()).Owned(table);
      ZeroTable(frame);
      mem := Put(mem, table, i, TableEntry(frame));
      tables := tables[frame := ChildInfo(tables, table, i)];
      return true, frame;
    }

    /** A fresh space sharing the kernel's upper half; on exhaustion nothing stays allocated. */
    method CreateVirtualSpace() returns (r: Option<nat>)
      requires Valid()
      modifies this`mem, this`spaces, pmm, pmm.bitmap
      ensures Valid()
      ensures r == None <==> old(pmm.freePages) < 2
      ensures r == None ==> Snap() == old(Snap())
      ensures r.Some? ==> r.value in spaces && Created(old(Snap()), Snap(), r.value, spaces[r.value].pml4)
    {
      hide Inv, Pmm.UsedIn, Pmm.Set, Pmm.ReleaseOne, Pmm.NextFit, NewPml4;
      var spacePhys := pmm.AllocPage();
      if spacePhys == 0 {
        return None;
      }
      var pml4Phys := pmm.AllocPage();
      if pml4Phys == 0 {
        var o := pmm.FreePage(spacePhys);
        assert Snap() == old(Snap());
        return None;
      }
      var k, p := spacePhys / 4096, pml4Phys / 4096;
      assert spacePhys == k * 4096 && pml4Phys == p * 4096;
      KernelRootInMem(old(Snap()), p);
      FillPml4(p, spaces[kernel].pml4);
      spaces := spaces[k := Space(p, 1)];
      assert Snap().used == old(Snap()).used + {k, p};
      CreateInv(old(Snap()), Snap(), k, p);
      return Some(k);
    }

    /** Clears the PML4 in frame `p` and copies the upper half of `kernelRoot` into it. */
    method FillPml4(p: nat, kernelRoot: nat)
      requires p in mem && |mem[p]| == 512 && kernelRoot in mem && |mem[kernelRoot]| == 512 && p != kernelRoot
      modifies this`mem
      ensures mem == old(mem)[p := NewPml4(old(mem), kernelRoot)]
    {
      ZeroTable(p);
      var i := 256;
      while i < 512
        invariant 256 <= i <= 512 && p in mem && |mem[p]| == 512
        invariant mem == old(mem)[p := mem[p]]
        invariant forall j :: 0 <= j < 512 ==>
          mem[p][j] == if 256 <= j < i then Rd(old(mem), kernelRoot, j) else 0
      {
        mem := Put(mem, p, i, mem[kernelRoot][i]);
        i := i + 1;
      }
      assert mem[p] == NewPml4(old(mem), kernelRoot);
    }

    /** Drops a reference; at the last one releases the user tables, the PML4 and the structure.
        The kernel space and a null space are refused. `log` records what every release answered. */
    method DestroyVirtualSpace(space: Option<nat>) returns (log: seq<Pmm.FreeOutcome>)
      requires Valid() && (space.Some? ==> space.value in spaces)
      modifies this`spaces, this`tables, pmm, pmm.bitmap
      ensures Valid() && mem == old(mem)
      ensures space == None || space.value == kernel ==> Snap() == old(Snap()) && log == []
      ensures space.Some? && space.value != kernel ==>
        var k := space.value;
        var sp := old(spaces)[k];
        if sp.refCount > 1 then
          Snap() == old(Snap()).(spaces := old(spaces)[k := sp.(refCount := sp.refCount - 1)]) && log == []
        else
          && Destroyed(old(Snap()), Snap(), k)
          && AllFreed(log) && |log| == |UserTables(old(Snap()), sp.pml4)| + 2
    {
      hide Inv, UserTables;
      if space == None || space.value == kernel {
        return [];
      }
      var k := space.value;
      var p := spaces[k].pml4;
      if spaces[k].refCount - 1 > 0 {
        DropReference(Snap(), k);
        spaces := spaces[k := spaces[k].(refCount := spaces[k].refCount - 1)];
        return [];
      }
      log := ReleaseSpace(k);
      spaces := spaces - {k};
      tables := map t | t in tables && t !in UserTables(old(Snap()), p) :: tables[t];
      DestroyedInv(old(Snap()), Snap(), k);
    }

    method ReleaseSpace(k: nat) returns (log: seq<Pmm.FreeOutcome>)
      requires Valid() && k in spaces
      modifies pmm, pmm.bitmap
      ensures pmm.Valid() && AllFreed(log) && |log| == |UserTables(old(Snap()), spaces[k].pml4)| + 2
      ensures pmm.Used() == old(pmm.Used()) - UserTables(old(Snap()), spaces[k].pml4) - {spaces[k].pml4, k}
    {
      hide Below, UserTables, Pmm.UsedIn, Inv;
      var p := spaces[k].pml4;
      SpaceFrames(Snap(), k);
      log := ReleaseBelow(p, 256, 4, Snap(), {});
      var a := ReleaseFrame(p);
      var b := ReleaseFrame(k);
      log := log + [a, b];
    }

    /** The nested loops of the teardown, one level a call: for each present entry of `t`, release
        what hangs below the table it leads to, then that table. */
    method ReleaseBelow(t: nat, n: nat, level: nat, ghost s: State, ghost done: set<nat>)
      returns (log: seq<Pmm.FreeOutcome>)
      requires pmm.Valid() && Inv(s) && mem == s.mem && pmm.totalPages == s.total
      requires 2 <= level <= 4 && LevelOf(s.tables, t) == level
      requires if level == 4 then t in s.Roots() && n == 256 else t in s.tables && s.tables[t].user && n == 512
      requires done !! Below(s, t, n) && pmm.Used() == s.used - done
      modifies pmm, pmm.bitmap
      ensures pmm.Valid() && pmm.Used() == s.used - (done + Below(s, t, n))
      ensures AllFreed(log) && |log| == CountBelow(s, t, n)
      decreases level, 2
    {
      hide Below, CountBelow, Inv, Pmm.UsedIn, AllFreed, Joined;
      log := [];
      NoneBelow(s, t);
      var i := 0;
      while i < n
        invariant i <= n && pmm.Valid()
        invariant pmm.Used() == s.used - (done + Below(s, t, i))
        invariant AllFreed(log) && |log| == CountBelow(s, t, i)
      {
        var more := ReleaseTurn(t, i, n, level, s, done);
        log := Joined(log, more);
        i := i + 1;
      }
    }

    /** One loop turn. */
    method ReleaseTurn(t: nat, i: nat, n: nat, level: nat, ghost s: State, ghost done: set<nat>)
      returns (log: seq<Pmm.FreeOutcome>)
      requires pmm.Valid() && Inv(s) && mem == s.mem && pmm.totalPages == s.total
      requires 2 <= level <= 4 && LevelOf(s.tables, t) == level && i < n
      requires if level == 4 then t in s.Roots() && n == 256 else t in s.tables && s.tables[t].user && n == 512
      requires done !! Below(s, t, n) && pmm.Used() == s.used - (done + Below(s, t, i))
      modifies pmm, pmm.bitmap
      ensures pmm.Valid() && pmm.Used() == s.used - (done + Below(s, t, i + 1))
      ensures AllFreed(log) && CountBelow(s, t, i) + |log| == CountBelow(s, t, i + 1)
      decreases level, 1
    {
      hide Below, CountBelow, Inv, Present, LeafFrame, Pmm.UsedIn;
      log := [];
      EntryRelease(s, t, i, n, done);
      if Present(mem[t][i]) {
        log := ReleaseEntry(mem[t][i], level, s, done + Below(s, t, i));
        assert s.used - (done + Below(s, t, i + 1)) == pmm.Used();
      }
    }

    /** The loop body for a present entry. */
    method ReleaseEntry(e: nat, level: nat, ghost s: State, ghost done: set<nat>)
      returns (log: seq<Pmm.FreeOutcome>)
      requires pmm.Valid() && Inv(s) && mem == s.mem && pmm.totalPages == s.total && 2 <= level <= 4
      requires var c := LeafFrame(e);
        && c in s.tables && s.tables[c].user && s.tables[c].level == level - 1
        && And(e, ADDR_MASK) == c * 4096 && c in s.used && 0 < c < s.total
        && done !! Below(s, c, 512) && c !in done + Below(s, c, 512)
        && (level == 2 ==> Below(s, c, 512) == {} && CountBelow(s, c, 512) == 0)
      requires pmm.Used() == s.used - done
      modifies pmm, pmm.bitmap
      ensures pmm.Valid() && pmm.Used() == s.used - (done + Below(s, LeafFrame(e), 512) + {LeafFrame(e)})
      ensures AllFreed(log) && |log| == CountBelow(s, LeafFrame(e), 512) + 1
      decreases level, 0
    {
      hide Below, CountBelow, Inv, LeafFrame, Pmm.UsedIn, Pmm.ReleaseOne;
      var c := LeafFrame(e);
      log := [];
      if level > 2 {
        log := ReleaseBelow(c, 512, level - 1, s, done);
      }
      var o := ReleaseFrame(c);
      log := log + [o];
    }

    /** Releasing a used frame is never refused. */
    method ReleaseFrame(f: nat) returns (o: Pmm.FreeOutcome)
      requires pmm.Valid() && 0 < f < pmm.totalPages && f in pmm.Used()
      modifies pmm, pmm.bitmap
      ensures o == Pmm.Freed && pmm.Valid() && pmm.Used() == old(pmm.Used()) - {f}
    {
      assert f * 4096 / 4096 == f && f * 4096 % 4096 == 0;
      o := pmm.FreePage(f * 4096);
    }

    /** Maps one page: inserts if absent, and answers 1 without change if already mapped. */
    method MapPage(space: Option<nat>, va: nat, phys: nat, flags: nat) returns (r: nat)
      requires Valid() && (space.Some? ==> space.value in spaces)
      requires space.Some? ==> !Walk(mem, spaces[space.value].pml4, VpnOf(va), 1).Big?
      modifies this`mem, this`tables, pmm, pmm.bitmap
      ensures Valid() && Grew(old(Snap()), Snap()) && (r == 0 || r == 1)
      ensures r == 1 <==> && space.Some? && va % 4096 == 0 && phys % 4096 == 0 && phys <= ADDR_MASK
                          && Missing(old(mem), old(spaces)[space.value].pml4, VpnOf(va)) <= old(pmm.freePages)
      ensures r == 0 ==> SameTranslations(old(mem), mem, Snap().Roots())
      ensures space == None || va % 4096 != 0 || phys % 4096 != 0 || phys > ADDR_MASK ==> Snap() == old(Snap())
      ensures r == 0 && space.Some? && va % 4096 == 0 && phys % 4096 == 0 && phys <= ADDR_MASK ==>
        pmm.freePages == 0 && Missing(mem, spaces[space.value].pml4, VpnOf(va)) > 0
      ensures r == 1 ==>
        pmm.freePages == old(pmm.freePages) - Missing(old(mem), old(spaces)[space.value].pml4, VpnOf(va))
      ensures r == 1 ==>
        MapEffect(old(Snap()), Snap(), spaces[space.value].pml4, VpnOf(va), LeafEntry(phys, flags))
      ensures space.Some? ==> RootsKept(old(Snap()), Snap(), spaces[space.value].pml4)
    {
      hide Inv, Grew, SameTranslations, MapEffect, RootsKept;
      GrewRefl(Snap());
      if space.Some? { RootsKeptRefl(Snap(), spaces[space.value].pml4); }
      if space == None || va % 4096 != 0 || phys % 4096 != 0 {
        return 0;
      }
      if phys > ADDR_MASK {
        return 0;
      }
      var root := spaces[space.value].pml4;
      var pt := GetPageTable(root, va, true);
      if pt == None {
        return 0;
      }
      LeafEntryFrame(phys, flags);
      r := SetLeaf(root, va, pt.value, LeafEntry(phys, flags), old(Snap()));
    }

    /** The tail of `MapPage`, once the page table is at hand. */
    method SetLeaf(ghost root: nat, va: nat, pt: nat, e: nat, ghost s0: State) returns (r: nat)
      requires Valid() && root in Snap().Roots() && Walk(mem, root, VpnOf(va), 1) == Table(pt) && Present(e)
      requires Inv(s0) && Grew(s0, Snap()) && SameTranslations(s0.mem, mem, s0.Roots()) && RootsKept(s0, Snap(), root)
      modifies this`mem
      ensures Valid() && r == 1 && Grew(s0, Snap()) && MapEffect(s0, Snap(), root, VpnOf(va), e)
      ensures RootsKept(s0, Snap(), root)
    {
      hide Inv, Grew, MapEffect, SameTranslations, RootsKept;
      ghost var s' := SetLeafOutcome(s0, Snap(), root, VpnOf(va), e);
      LeafRoots(Snap(), s', root, VpnOf(va), e);
      RootsKeptTrans(s0, Snap(), s', root);
      if !Present(mem[pt][Ix(VpnOf(va), 1)]) {
        mem := Put(mem, pt, Ix(VpnOf(va), 1), e);
      }
      assert Snap() == s';
      r := 1;
    }

    method UnmapPage(space: Option<nat>, va: nat) returns (r: nat)
      requires Valid() && (space.Some? ==> space.value in spaces)
      requires space.Some? ==> !Walk(mem, spaces[space.value].pml4, VpnOf(va), 1).Big?
      modifies this`mem, this`tables, pmm, pmm.bitmap
      ensures Valid() && Grew(old(Snap()), Snap()) && Snap().used == old(Snap()).used && (r == 0 || r == 1)
      ensures r == 1 <==> && space.Some? && va % 4096 == 0
                          && Translate(old(mem), old(spaces)[space.value].pml4, VpnOf(va)).Page?
      ensures r == 0 ==> Snap() == old(Snap())
      ensures r == 1 ==> LeafEffect(old(Snap()), Snap(), spaces[space.value].pml4, VpnOf(va), 0)
    {
      hide Inv, Grew, LeafEffect, SameTranslations;
      GrewRefl(Snap());
      if space == None || va % 4096 != 0 {
        return 0;
      }
      var root := spaces[space.value].pml4;
      var pt := GetPageTable(root, va, false);
      if pt == None {
        return 0;
      }
      ghost var s' := LeafStep(Snap(), root, VpnOf(va), 0);
      if !Present(mem[pt.value][Ix(VpnOf(va), 1)]) {
        return 0;
      }
      mem := Put(mem, pt.value, Ix(VpnOf(va), 1), 0);
      return 1;
    }

    /** Lookup plus page offset; 0 when the walk ends or the entry it reads is absent. Where no huge page
        lies on the walk this is the address the processor translates to. */
    method GetPhysicalAddress(space: Option<nat>, va: nat) returns (phys: nat)
      requires Valid() && (space.Some? ==> space.value in spaces)
      modifies this`mem, this`tables, pmm, pmm.bitmap
      ensures Valid() && Snap() == old(Snap())
      ensures space == None ==> phys == 0
      ensures space.Some? ==> phys == CodePhys(mem, spaces[space.value].pml4, VpnOf(va), va % 4096)
      ensures space.Some? && !Walk(mem, spaces[space.value].pml4, VpnOf(va), 1).Big? ==>
        (match Translate(mem, spaces[space.value].pml4, VpnOf(va))
         case Page(e) => phys / 4096 == LeafFrame(e) && phys % 4096 == va % 4096
         case _ => phys == 0)
    {
      hide Inv, Grew, SameTranslations, CodeWalk, Walk, Translate, And, LeafFrame;
      if space == None {
        return 0;
      }
      var root := spaces[space.value].pml4;
      CodePhysRight(mem, root, VpnOf(va), va % 4096);
      AddressParts(Translate(mem, root, VpnOf(va)), va % 4096);
      var pt := GetPageTable(root, va, false);
      if pt == None {
        return 0;
      }
      var e := Rd(mem, pt.value, Ix(VpnOf(va), 1));
      if !Present(e) {
        return 0;
      }
      return And(e, ADDR_MASK) + va % 4096;
    }
  }

  // ---- The walk the code makes ----

  /** The frame the code reaches at a level: every present entry leads on, whatever its page-size bit.
      Frames outside memory read as zero. */
  function CodeWalk(mem: Mem, root: nat, vpn: nat, level: nat): Option<nat>
    requires 1 <= level <= 4
    decreases 4 - level
  {
    if level == 4 then Some(root)
    else
      var up := CodeWalk(mem, root, vpn, level + 1);
      if up == None || !Present(Rd(mem, up.value, Ix(vpn, level + 1))) then None
      else Some(WalkFrame(Rd(mem, up.value, Ix(vpn, level + 1))))
  }

  function CodePhys(mem: Mem, root: nat, vpn: nat, offset: nat): nat {
    var t := CodeWalk(mem, root, vpn, 1);
    if t == None then 0 else PhysOf(LeafMapping(Rd(mem, t.value, Ix(vpn, 1))), offset)
  }

  /** The code's walk as the processor's outcomes: a table or nothing. */
  function AsReach(t: Option<nat>): Reach { if t == None then Absent else Table(t.value) }

  lemma AbsentForGood(mem: Mem, root: nat, vpn: nat, level: nat)
    requires 1 <= level <= 3 && CodeWalk(mem, root, vpn, level) == None
    ensures CodeWalk(mem, root, vpn, 1) == None
  {
    hide Present, WalkFrame, Ix;
    if level == 3 { assert CodeWalk(mem, root, vpn, 2) == None; }
  }

  lemma {:induction false} CodeWalkStep(mem: Mem, root: nat, vpn: nat, level: nat)
    requires 1 <= level <= 4 && !Walk(mem, root, vpn, level).Big?
    ensures Walk(mem, root, vpn, level) == AsReach(CodeWalk(mem, root, vpn, level))
    decreases 4 - level
  {
    hide Present, Huge, WalkFrame, Ix;
    if level < 4 { CodeWalkStep(mem, root, vpn, level + 1); }
  }

  /** The code's walk is the processor's if and only if no huge page lies on it. */
  lemma CodeWalkIff(mem: Mem, root: nat, vpn: nat)
    ensures AsReach(CodeWalk(mem, root, vpn, 1)) == Walk(mem, root, vpn, 1) <==> !Walk(mem, root, vpn, 1).Big?
  {
    hide Present, Huge, WalkFrame, Ix;
    if !Walk(mem, root, vpn, 1).Big? { CodeWalkStep(mem, root, vpn, 1); }
  }

  lemma CodePhysRight(mem: Mem, root: nat, vpn: nat, offset: nat)
    ensures !Walk(mem, root, vpn, 1).Big? ==>
      CodePhys(mem, root, vpn, offset) == PhysOf(Translate(mem, root, vpn), offset)
  {
    hide Present, Huge, WalkFrame, Ix, And;
    CodeWalkIff(mem, root, vpn);
  }

  /** No release was refused: every address was a used page. */
  predicate AllFreed(log: seq<Pmm.FreeOutcome>) {
    forall i :: 0 <= i < |log| ==> log[i] == Pmm.Freed
  }

  function Joined(a: seq<Pmm.FreeOutcome>, b: seq<Pmm.FreeOutcome>): (r: seq<Pmm.FreeOutcome>)
    ensures |r| == |a| + |b|
    ensures AllFreed(a) && AllFreed(b) ==> AllFreed(r)
  {
    a + b
  }

  lemma DropReference(s: State, k: nat)
    requires Inv(s) && k in s.spaces && s.spaces[k].refCount > 1
    ensures Inv(s.(spaces := s.spaces[k := s.spaces[k].(refCount := s.spaces[k].refCount - 1)]))
  {
    var s' := s.(spaces := s.spaces[k := s.spaces[k].(refCount := s.spaces[k].refCount - 1)]);
    hide TreeInv;
    assert forall j :: j in s.spaces ==> s'.spaces[j].pml4 == s.spaces[j].pml4;
    assert s'.Roots() == s.Roots();
    assert forall f: nat :: s'.Owned(f) <==> s.Owned(f);
  }

  lemma SpaceFrames(s: State, k: nat)
    requires Inv(s) && k in s.spaces
    ensures var p := s.spaces[k].pml4;
      && p in s.Roots() && p != k && 0 < p < s.total && 0 < k < s.total && p in s.used && k in s.used
      && p !in UserTables(s, p) && k !in UserTables(s, p)
      && LevelOf(s.tables, p) == 4 && Below(s, p, 256) == UserTables(s, p)
  {
    var p := s.spaces[k].pml4;
    assert p in s.Roots() && s.Owned(p) && s.Owned(k);
    BelowRoot(s, p);
  }

  lemma NoneBelow(s: State, t: nat)
    ensures Below(s, t, 0) == {} && CountBelow(s, t, 0) == 0 && AllFreed([])
  {
  }

  /** The byte address a translation gives for an offset, 0 standing for no translation. */
  function PhysOf(m: Mapping, offset: nat): nat {
    if m.Page? then And(m.entry, ADDR_MASK) + offset else 0
  }

  /** An address has the frame of the translation and the offset within the page. */
  lemma AddressParts(m: Mapping, offset: nat)
    requires offset < 4096
    ensures m.Page? ==> PhysOf(m, offset) / 4096 == LeafFrame(m.entry) && PhysOf(m, offset) % 4096 == offset
    ensures !m.Page? ==> PhysOf(m, offset) == 0
  {
    hide And, LeafFrame;
    if m.Page? { AddrField(m.entry); }
  }

  /** Insert-if-absent, seen from every space: the page itself changes where it was unmapped (in the
      spaces that share the table), and nothing else does. */
  ghost predicate MapEffect(s: State, s': State, root: nat, vpn: nat, e: nat) {
    forall r, v: nat :: r in s.Roots() && v < VPN_LIMIT ==>
      Translate(s'.mem, r, v) ==
        if v == vpn && SharesTop(s', root, r, vpn) && Translate(s.mem, root, vpn) == Unmapped
        then Page(e) else Translate(s.mem, r, v)
  }

  lemma SetLeafOutcome(s0: State, s: State, root: nat, vpn: nat, e: nat) returns (s': State)
    requires Inv(s) && root in s.Roots() && Grew(s0, s) && SameTranslations(s0.mem, s.mem, s0.Roots())
    requires vpn < VPN_LIMIT && Present(e) && Walk(s.mem, root, vpn, 1).Table?
    ensures var t := Walk(s.mem, root, vpn, 1).frame;
      && t in s.mem && |s.mem[t]| == 512
      && s' == (if Present(s.mem[t][Ix(vpn, 1)]) then s else s.(mem := Put(s.mem, t, Ix(vpn, 1), e)))
    ensures Inv(s') && Grew(s0, s') && MapEffect(s0, s', root, vpn, e)
  {
    var t := Walk(s.mem, root, vpn, 1).frame;
    s' := LeafStep(s, root, vpn, e);
    if Present(s.mem[t][Ix(vpn, 1)]) {
      AlreadyMapped(s0, s, root, vpn, e);
      s' := s;
    } else {
      GrewTrans(s0, s, s');
      FreshlyMapped(s0, s, s', root, vpn, e);
    }
  }

  /** A leaf write is to no PML4. */
  lemma LeafRoots(s: State, s': State, root: nat, vpn: nat, e: nat)
    requires Inv(s) && root in s.Roots() && Walk(s.mem, root, vpn, 1).Table?
    requires var t := Walk(s.mem, root, vpn, 1).frame;
      t in s.mem && |s.mem[t]| == 512 && (s' == s || s'.mem == Put(s.mem, t, Ix(vpn, 1), e))
    ensures RootsKept(s, s', root)
  {
    hide Present, Huge, WalkFrame, Ix, Walk;
    WalkFacts(s.mem, s.tables, s.Roots(), root, vpn, 1);
  }

  lemma AlreadyMapped(s0: State, s: State, root: nat, vpn: nat, e: nat)
    requires Inv(s) && root in s.Roots() && Grew(s0, s) && SameTranslations(s0.mem, s.mem, s0.Roots())
    requires Translate(s.mem, root, vpn) != Unmapped
    ensures MapEffect(s0, s, root, vpn, e)
  {
    assert s0.Roots() == s.Roots();
    assert Translate(s.mem, root, vpn) == Translate(s0.mem, root, vpn);
  }

  lemma FreshlyMapped(s0: State, s: State, s': State, root: nat, vpn: nat, e: nat)
    requires Inv(s) && root in s.Roots() && Grew(s0, s) && SameTranslations(s0.mem, s.mem, s0.Roots())
    requires vpn < VPN_LIMIT && Present(e) && Translate(s.mem, root, vpn) == Unmapped
    requires Walk(s.mem, root, vpn, 1).Table?
    requires Inv(s') && LeafEffect(s, s', root, vpn, e) && Grew(s, s')
    requires forall r, v: nat :: r in s.Roots() ==> Walk(s'.mem, r, v, 3) == Walk(s.mem, r, v, 3)
    ensures MapEffect(s0, s', root, vpn, e)
  {
    assert s0.Roots() == s.Roots();
    forall r, v: nat | r in s0.Roots() && v < VPN_LIMIT
      ensures Translate(s'.mem, r, v) ==
        if v == vpn && SharesTop(s', root, r, vpn) && Translate(s0.mem, root, vpn) == Unmapped
        then Page(e) else Translate(s0.mem, r, v)
    {
      assert Translate(s.mem, r, v) == Translate(s0.mem, r, v);
      assert Translate(s.mem, root, vpn) == Translate(s0.mem, root, vpn);
    }
  }

  lemma BootInv(s: State, bootPml4: nat)
    requires s.spaces == map[s.kernel := Space(bootPml4, 1)]
    requires TreeInv(s.mem, s.tables, {bootPml4})
    requires s.total <= FRAME_LIMIT && 0 < s.kernel && s.kernel in s.used
    requires s.kernel !in s.tables && s.kernel != bootPml4
    requires forall f :: 0 <= f < s.total ==> f in s.mem && |s.mem[f]| == 512
    requires forall f :: f in s.used ==> f < s.total
    requires forall f :: f in s.tables || f == bootPml4 ==> f in s.used && f != 0
    ensures Inv(s)
  {
    assert s.spaces[s.kernel].pml4 in s.Roots();
    assert s.Roots() == {bootPml4};
  }

  lemma KernelRootInMem(s: State, p: nat)
    requires Inv(s) && p < s.total && p !in s.used
    ensures s.kernel in s.spaces && p in s.mem && |s.mem[p]| == 512
    ensures var kr := s.spaces[s.kernel].pml4; kr in s.mem && |s.mem[kr]| == 512 && kr != p
  {
    var kr := s.spaces[s.kernel].pml4;
    assert kr in s.Roots();
    assert s.Owned(kr);
  }

  lemma TableInMem(s: State, root: nat, vpn: nat, level: nat)
    requires Inv(s) && root in s.Roots() && 1 <= level <= 4 && Walk(s.mem, root, vpn, level).Table?
    ensures var t := Walk(s.mem, root, vpn, level).frame;
      t in s.mem && |s.mem[t]| == 512 && (t in s.tables || t in s.Roots()) && LevelOf(s.tables, t) == level
  {
    if level < 4 { WalkFacts(s.mem, s.tables, s.Roots(), root, vpn, level); }
  }

  lemma NotBigBelow(mem: Mem, root: nat, vpn: nat, level: nat)
    requires 2 <= level <= 4 && Walk(mem, root, vpn, level).Table? && !Walk(mem, root, vpn, 1).Big?
    requires Present(Rd(mem, Walk(mem, root, vpn, level).frame, Ix(vpn, level)))
    ensures Walk(mem, root, vpn, level - 1).Table?
  {
    if level == 4 { assert !Walk(mem, root, vpn, 2).Big?; }
  }

  lemma AbsentBelow(mem: Mem, root: nat, vpn: nat, level: nat)
    requires 2 <= level <= 4 && Walk(mem, root, vpn, level).Table?
    requires !Present(Rd(mem, Walk(mem, root, vpn, level).frame, Ix(vpn, level)))
    ensures Walk(mem, root, vpn, 1) == Absent && Missing(mem, root, vpn) == level - 1
    ensures Walk(mem, root, vpn, level - 1) == Absent
  {
    assert Walk(mem, root, vpn, level - 1) == Absent;
    if level == 4 {
      assert Walk(mem, root, vpn, 2) == Absent;
    } else if level == 2 {
      assert Walk(mem, root, vpn, 2).Table?;
    } else {
      assert Walk(mem, root, vpn, 3).Table?;
    }
  }

  /** Everything the walker needs to know about a table it has just linked. */
  lemma InstallOutcome(s: State, root: nat, vpn: nat, level: nat, f: nat, s': State)
    requires Inv(s) && root in s.Roots() && 2 <= level <= 4 && Walk(s.mem, root, vpn, level).Table?
    requires !Present(Rd(s.mem, Walk(s.mem, root, vpn, level).frame, Ix(vpn, level)))
    requires 0 < f < s.total && f !in s.used
    requires var t := Walk(s.mem, root, vpn, level).frame;
      t != f && t in s.mem && Ix(vpn, level) < |s.mem[t]| && LevelOf(s.tables, t) >= 1 &&
      s' == s.(mem := Installed(s.mem, t, Ix(vpn, level), f), used := s.used + {f},
               tables := s.tables[f := ChildInfo(s.tables, t, Ix(vpn, level))])
    ensures Inv(s') && Grew(s, s') && SameTranslations(s.mem, s'.mem, s.Roots())
    ensures var t := Walk(s.mem, root, vpn, level).frame;
      && t in s'.mem && |s'.mem[t]| == 512
      && Walk(s'.mem, root, vpn, level - 1) == Table(WalkFrame(s'.mem[t][Ix(vpn, level)]))
    ensures Missing(s'.mem, root, vpn) == Missing(s.mem, root, vpn) - 1 && !Walk(s'.mem, root, vpn, 1).Big?
  {
    var t := Walk(s.mem, root, vpn, level).frame;
    TableInMem(s, root, vpn, level);
    assert !s.Owned(f);
    InstallStep(s, t, Ix(vpn, level), f, s');
    InstallMissing(s, root, vpn, level, f);
    AbsentBelow(s.mem, root, vpn, level);
    TableEntryFacts(f);
  }

  /** The table goes below the walk's own root. */
  lemma InstallRoots(s: State, root: nat, vpn: nat, level: nat, f: nat, s': State)
    requires Inv(s) && root in s.Roots() && 2 <= level <= 4 && Walk(s.mem, root, vpn, level).Table? && f !in s.used
    requires var t := Walk(s.mem, root, vpn, level).frame;
      t != f && t in s.mem && Ix(vpn, level) < |s.mem[t]| && s'.mem == Installed(s.mem, t, Ix(vpn, level), f)
    ensures RootsKept(s, s', root)
  {
    hide TableEntry, Present, Huge, WalkFrame, Ix;
    TableInMem(s, root, vpn, level);
    assert !s.Owned(f);
    if level < 4 { WalkFacts(s.mem, s.tables, s.Roots(), root, vpn, level); }
  }

  lemma InstallMissing(s: State, root: nat, vpn: nat, level: nat, f: nat)
    requires Inv(s) && root in s.Roots() && 2 <= level <= 4 && Walk(s.mem, root, vpn, level).Table?
    requires CanInstall(s.mem, s.tables, s.Roots(), Walk(s.mem, root, vpn, level).frame, Ix(vpn, level), f)
    ensures var mem' := Installed(s.mem, Walk(s.mem, root, vpn, level).frame, Ix(vpn, level), f);
      && Walk(mem', root, vpn, level - 1) == Table(f)
      && Missing(mem', root, vpn) == level - 2 && !Walk(mem', root, vpn, 1).Big?
  {
    var t := Walk(s.mem, root, vpn, level).frame;
    var mem' := Installed(s.mem, t, Ix(vpn, level), f);
    TableInMem(s, root, vpn, level);
    InstallWalk(s.mem, s.tables, s.Roots(), t, Ix(vpn, level), f, root, vpn, level);
    ZeroEntry();
    assert Rd(mem', f, Ix(vpn, level - 1)) == 0;
    if level > 2 {
      assert Walk(mem', root, vpn, level - 2) == Absent;
      if level == 4 { assert Walk(mem', root, vpn, 1) == Absent; }
    }
  }
}
