/** When the segment copy puts the bytes where the segment's addresses read them. */
module ElfAlignment {
  import opened Common
  import opened Pte
  import opened PageTables
  import opened Spaces
  import opened PhysBytes
  import opened Vmm
  import opened ZeroedRange
  import opened Elf
  import Pmm

  function ChunkLen(va: nat, memsz: nat, copied: nat): (n: nat)
    requires copied < memsz
    ensures 0 < n <= memsz - copied
    ensures copied + n == memsz || (va + copied + n) % 4096 == 0
  {
    var room := 4096 - (va + copied) % 4096;
    if room > memsz - copied then memsz - copied else room
  }

  /** The copy loop over the physical window that starts at the frame of the segment's first page; the
      frames are consecutive. The address of a chunk already holds its page offset, and the loop adds
      the page offset again. */
  function CopyFrom(win: seq<Byte>, va: nat, data: seq<Byte>, memsz: nat, copied: nat): (r: seq<Byte>)
    requires |win| == 2 * (va % 4096) + memsz && copied <= memsz
    requires copied == 0 || copied == memsz || (va + copied) % 4096 == 0
    ensures |r| == |win|
    decreases memsz - copied
  {
    if copied == memsz then win
    else
      var n := ChunkLen(va, memsz, copied);
      var at := va % 4096 + copied + (va + copied) % 4096;
      CopyFrom(Splice(win, at, Chunk(data, copied, n)), va, data, memsz, copied + n)
  }

  /** Reading the segment's addresses gives its image: byte `i` lies at the offset of its address. */
  ghost predicate ReadsRight(win: seq<Byte>, va: nat, data: seq<Byte>, memsz: nat)
    requires |win| == 2 * (va % 4096) + memsz
  {
    forall i :: 0 <= i < memsz ==> win[va % 4096 + i] == ImageByte(data, memsz, i)
  }

  ghost predicate DoneRight(win: seq<Byte>, data: seq<Byte>, memsz: nat, copied: nat)
    requires copied <= |win|
  {
    forall i :: 0 <= i < copied ==> win[i] == ImageByte(data, memsz, i)
  }

  lemma {:induction false} AlignedIsRight(win: seq<Byte>, va: nat, data: seq<Byte>, memsz: nat, copied: nat)
    requires va % 4096 == 0 && |win| == memsz && copied <= memsz
    requires copied == 0 || copied == memsz || (va + copied) % 4096 == 0
    requires DoneRight(win, data, memsz, copied)
    ensures ReadsRight(CopyFrom(win, va, data, memsz, copied), va, data, memsz)
    decreases memsz - copied
  {
    if copied < memsz {
      var n := ChunkLen(va, memsz, copied);
      AlignedIsRight(Splice(win, copied, Chunk(data, copied, n)), va, data, memsz, copied + n);
    }
  }

  /** With a page offset, no chunk ever reaches the place of the segment's first byte. */
  lemma {:induction false} FirstByteMissed(win: seq<Byte>, va: nat, data: seq<Byte>, memsz: nat, copied: nat)
    requires va % 4096 > 0 && |win| == 2 * (va % 4096) + memsz && 0 < memsz && copied <= memsz
    requires copied == 0 || copied == memsz || (va + copied) % 4096 == 0
    ensures CopyFrom(win, va, data, memsz, copied)[va % 4096] == win[va % 4096]
    decreases memsz - copied
  {
    hide CopyFrom, Chunk;
    if copied < memsz {
      var n := ChunkLen(va, memsz, copied);
      var at := va % 4096 + copied + (va + copied) % 4096;
      NextChunk(win, va, data, memsz, copied, n);
      FirstByteMissed(Splice(win, at, Chunk(data, copied, n)), va, data, memsz, copied + n);
    } else {
      CopyDone(win, va, data, memsz);
    }
  }

  lemma {:induction false} NoFileBytes(win: seq<Byte>, va: nat, memsz: nat, copied: nat)
    requires |win| == 2 * (va % 4096) + memsz && copied <= memsz
    requires copied == 0 || copied == memsz || (va + copied) % 4096 == 0
    requires forall o :: 0 <= o < |win| ==> win[o] == 0
    ensures forall o :: 0 <= o < |win| ==> CopyFrom(win, va, [], memsz, copied)[o] == 0
    decreases memsz - copied
  {
    if copied < memsz {
      var n := ChunkLen(va, memsz, copied);
      var at := va % 4096 + copied + (va + copied) % 4096;
      NoFileBytes(Splice(win, at, Chunk([], copied, n)), va, memsz, copied + n);
    }
  }

  ghost predicate LoadsRight(va: nat, data: seq<Byte>, memsz: nat) {
    ReadsRight(CopyFrom(Zeros(2 * (va % 4096) + memsz), va, data, memsz, 0), va, data, memsz)
  }

  /** The copy is right for every file of `filesz` bytes exactly when the segment's address is
      page-aligned, or there is nothing to copy. */
  lemma RightIffAligned(va: nat, filesz: nat, memsz: nat)
    ensures (forall data: seq<Byte> :: |data| == filesz ==> LoadsRight(va, data, memsz))
      <==> va % 4096 == 0 || filesz == 0 || memsz == 0
  {
    var win := Zeros(2 * (va % 4096) + memsz);
    if va % 4096 == 0 {
      forall data: seq<Byte> | |data| == filesz ensures LoadsRight(va, data, memsz) {
        AlignedIsRight(win, va, data, memsz, 0);
      }
    } else if filesz == 0 {
      forall data: seq<Byte> | |data| == filesz ensures LoadsRight(va, data, memsz) {
        assert data == [];
        NoFileBytes(win, va, memsz, 0);
      }
    } else if memsz > 0 {
      var ones := seq<Byte>(filesz, _ => 1);
      FirstByteMissed(win, va, ones, memsz, 0);
      assert ImageByte(ones, memsz, 0) == 1;
      assert !LoadsRight(va, ones, memsz);
    }
  }

  // ---- The loop over physical memory ----

  /** The bytes of physical memory from an address on. */
  ghost function Window(mem: Mem, base: nat, n: nat): (w: seq<Byte>)
    ensures |w| == n
  {
    seq<Byte>(n, i requires 0 <= i => PhysByte(mem, base + i))
  }

  /** A store shows in the window as a splice. */
  lemma StoredWindow(mem: Mem, mem': Mem, base: nat, n: nat, at: nat, data: seq<Byte>)
    requires Stored(mem, mem', base + at, data) && at + |data| <= n
    ensures Window(mem', base, n) == Splice(Window(mem, base, n), at, data)
  {
    hide PhysByte;
    var w, v := Window(mem', base, n), Splice(Window(mem, base, n), at, data);
    forall i | 0 <= i < n ensures w[i] == v[i] {
      var a := base + i;
      assert w[i] == PhysByte(mem', a);
    }
  }

  /** The pages of the range, from that of `va` on, map consecutive frames from `base` on. */
  ghost predicate Consecutive(s: State, root: nat, va: nat, memsz: nat, base: nat) {
    forall v: nat :: va / 4096 <= v && v * 4096 < va + memsz ==> MapsTo(s, root, v, base / 4096 + (v - va / 4096))
  }

  ghost predicate MapsTo(s: State, root: nat, v: nat, f: nat) {
    Translate(s.mem, root, v).Page? && LeafFrame(Translate(s.mem, root, v).entry) == f
  }

  /** No table, PML4 or space structure lies in the range. */
  ghost predicate OnlyData(s: State, base: nat, n: nat) {
    forall a: nat :: base <= a < base + n ==> !s.Owned(a / 4096)
  }

  /** What the rest of the copy makes of physical memory. */
  ghost function Rest(mem: Mem, base: nat, va: nat, data: seq<Byte>, memsz: nat, copied: nat): seq<Byte> {
    if copied == 0 || copied == memsz || (copied < memsz && (va + copied) % 4096 == 0)
    then CopyFrom(Window(mem, base, 2 * (va % 4096) + memsz), va, data, memsz, copied) else []
  }

  /** The loader's copy loop, at any alignment of `va`, on a range that maps consecutive frames from `base`
      on: each chunk goes to the address GetPhysicalAddress gives, plus the page offset once more. What it
      leaves in physical memory is the function above. The misplaced end of an unaligned segment must
      not hit a table. */
  method CopyLoop(m: Manager, k: nat, base: nat, va: nat, data: seq<Byte>, memsz: nat) returns (ok: bool)
    requires m.Valid() && k in m.spaces && 0 < base && base % 4096 == 0 && va + memsz <= USER_PAGES * 4096
    requires Consecutive(m.Snap(), m.spaces[k].pml4, va, memsz, base)
    requires Backed(m.mem, base, 2 * (va % 4096) + memsz) && OnlyData(m.Snap(), base, 2 * (va % 4096) + memsz)
    modifies m`mem, m`tables, m.pmm, m.pmm.bitmap
    ensures m.Valid() && m.spaces == old(m.spaces) && ok
    ensures Window(m.mem, base, 2 * (va % 4096) + memsz) ==
      CopyFrom(Window(old(m.mem), base, 2 * (va % 4096) + memsz), va, data, memsz, 0)
    ensures SameShape(old(m.mem), m.mem)
  {
    hide Inv, Backed, Stored, PhysByte, Window, Splice, Chunk, CopyFrom, SameShape, Consecutive, OnlyData, Pmm.UsedIn;
    ghost var n := 2 * (va % 4096) + memsz;
    var copied := 0;
    SameAgain(m.mem);
    while copied < memsz
      invariant copied <= memsz && (copied == 0 || copied == memsz || (va + copied) % 4096 == 0)
      invariant Rest(m.mem, base, va, data, memsz, copied) == Rest(old(m.mem), base, va, data, memsz, 0)
      invariant SameShape(old(m.mem), m.mem) && Backed(m.mem, base, n)
      invariant m.Valid() && m.spaces == old(m.spaces)
      invariant Consecutive(m.Snap(), m.spaces[k].pml4, va, memsz, base) && OnlyData(m.Snap(), base, n)
    {
      ghost var m1 := m.mem;
      var chunk;
      ok, chunk := CopyOnce(m, k, base, va, data, memsz, copied);
      if !ok {
        return;
      }
      ShapeTrans(old(m.mem), m1, m.mem);
      BackedStays(m1, m.mem, base, n);
      copied := copied + chunk;
    }
    CopyDone(Window(m.mem, base, n), va, data, memsz);
    return true;
  }

  /** One turn of the loop. */
  method CopyOnce(m: Manager, k: nat, base: nat, va: nat, data: seq<Byte>, memsz: nat, copied: nat)
    returns (ok: bool, chunk: nat)
    requires m.Valid() && k in m.spaces && 0 < base && base % 4096 == 0 && va + memsz <= USER_PAGES * 4096
    requires copied < memsz && (copied == 0 || (va + copied) % 4096 == 0)
    requires Consecutive(m.Snap(), m.spaces[k].pml4, va, memsz, base)
    requires Backed(m.mem, base, 2 * (va % 4096) + memsz) && OnlyData(m.Snap(), base, 2 * (va % 4096) + memsz)
    modifies m`mem, m`tables, m.pmm, m.pmm.bitmap
    ensures m.Valid() && m.spaces == old(m.spaces) && ok && chunk == ChunkLen(va, memsz, copied)
    ensures SameShape(old(m.mem), m.mem)
    ensures Consecutive(m.Snap(), m.spaces[k].pml4, va, memsz, base)
    ensures OnlyData(m.Snap(), base, 2 * (va % 4096) + memsz)
    ensures Rest(m.mem, base, va, data, memsz, copied + chunk) == Rest(old(m.mem), base, va, data, memsz, copied)
  {
    hide Inv, Backed, Stored, PhysByte, Window, Splice, Chunk, CopyFrom, SameShape, Consecutive, OnlyData, Pmm.UsedIn,
         Translate, Walk, VpnOf, LeafFrame;
    ghost var s, n := m.Snap(), 2 * (va % 4096) + memsz;
    ok, chunk := false, 0;
    var dst := va + copied;
    Lookup(s, k, base, va, memsz, copied);
    var phys := m.GetPhysicalAddress(Some(k), dst);
    AddressIs(base, va, copied, phys);
    if phys == 0 {
      return;
    }
    var pageOff := dst % 4096;
    chunk := 4096 - pageOff;
    if chunk > memsz - copied {
      chunk := memsz - copied;
    }
    ghost var at := va % 4096 + copied + pageOff;
    NextChunk(Window(s.mem, base, n), va, data, memsz, copied, chunk);
    BackedPart(m.mem, base, n, phys + pageOff, chunk);
    CopyChunk(m, phys, pageOff, data, copied, chunk);
    StoredWindow(s.mem, m.mem, base, n, at, Chunk(data, copied, chunk));
    StoredShape(s.mem, m.mem, phys + pageOff, Chunk(data, copied, chunk));
    StoreHarmless(s, m.Snap(), k, base, va, memsz, n, at, Chunk(data, copied, chunk));
    ok := true;
  }

  /** What the lookup for a chunk finds. */
  lemma Lookup(s: State, k: nat, base: nat, va: nat, memsz: nat, copied: nat)
    requires Inv(s) && k in s.spaces && Consecutive(s, s.spaces[k].pml4, va, memsz, base)
    requires copied < memsz && va + memsz <= USER_PAGES * 4096
    ensures var v := VpnOf(va + copied);
      && v == (va + copied) / 4096 && !Walk(s.mem, s.spaces[k].pml4, v, 1).Big?
      && Translate(s.mem, s.spaces[k].pml4, v).Page?
      && LeafFrame(Translate(s.mem, s.spaces[k].pml4, v).entry) == base / 4096 + ((va + copied) / 4096 - va / 4096)
  {
    hide Inv, Translate, LeafFrame, Walk;
    var v := (va + copied) / 4096;
    assert v * 4096 <= va + copied && va / 4096 <= v < USER_PAGES;
    assert MapsTo(s, s.spaces[k].pml4, v, base / 4096 + (v - va / 4096));
    SmallPage(s.mem, s.spaces[k].pml4, v);
  }

  lemma AddressIs(base: nat, va: nat, copied: nat, phys: nat)
    requires base % 4096 == 0 && phys % 4096 == (va + copied) % 4096
    requires phys / 4096 == base / 4096 + ((va + copied) / 4096 - va / 4096)
    ensures phys == base + va % 4096 + copied
  {
  }

  /** A store into data frames leaves the tree of tables, every translation and the range as they were. */
  lemma StoreHarmless(s: State, s': State, k: nat, base: nat, va: nat, memsz: nat, n: nat, at: nat, data: seq<Byte>)
    requires Inv(s) && k in s.spaces && s' == s.(mem := s'.mem) && Stored(s.mem, s'.mem, base + at, data)
    requires data != [] && at + |data| <= n && OnlyData(s, base, n)
    requires Consecutive(s, s.spaces[k].pml4, va, memsz, base)
    ensures Inv(s') && OnlyData(s', base, n) && Consecutive(s', s.spaces[k].pml4, va, memsz, base)
  {
    hide Inv, Translate, LeafFrame, Stored, OnlyData;
    StoreMissesOwned(s, s', base, n, at, data);
    StoredShape(s.mem, s'.mem, base + at, data);
    OwnedSame(s, s');
    SameOwners(s, s', base, n);
    var root := s.spaces[k].pml4;
    assert root in s.Roots();
    forall v: nat | va / 4096 <= v && v * 4096 < va + memsz
      ensures MapsTo(s', root, v, base / 4096 + (v - va / 4096))
    {
      assert MapsTo(s, root, v, base / 4096 + (v - va / 4096));
      assert Translate(s'.mem, root, v) == Translate(s.mem, root, v);
    }
  }

  lemma SameOwners(s: State, s': State, base: nat, n: nat)
    requires OnlyData(s, base, n) && s' == s.(mem := s'.mem)
    ensures OnlyData(s', base, n)
  {
    assert forall f: nat :: s'.Owned(f) <==> s.Owned(f);
  }

  lemma StoreMissesOwned(s: State, s': State, base: nat, n: nat, at: nat, data: seq<Byte>)
    requires Stored(s.mem, s'.mem, base + at, data) && data != [] && at + |data| <= n && OnlyData(s, base, n)
    ensures forall f: nat :: s.Owned(f) && f in s.mem ==> f in s'.mem && s'.mem[f] == s.mem[f]
  {
    hide PhysByte, OnlyData;
    forall f: nat | s.Owned(f) && f in s.mem ensures f in s'.mem && s'.mem[f] == s.mem[f] {
      var a := base + at;
      if f * 4096 + 4096 > a && a + |data| > f * 4096 {
        HitsData(s, base, n, f, if f * 4096 > a then f * 4096 else a);
      }
    }
  }

  lemma HitsData(s: State, base: nat, n: nat, f: nat, x: nat)
    requires OnlyData(s, base, n) && base <= x < base + n && f * 4096 <= x < f * 4096 + 4096
    ensures !s.Owned(f)
  {
    assert x / 4096 == f;
  }

  /** Memory that is the same in all frames the manager owns has the same tree and translations. */
  lemma OwnedSame(s: State, s': State)
    requires Inv(s) && s' == s.(mem := s'.mem) && SameShape(s.mem, s'.mem)
    requires forall f: nat :: s.Owned(f) && f in s.mem ==> f in s'.mem && s'.mem[f] == s.mem[f]
    ensures Inv(s')
    ensures forall r, v: nat :: r in s.Roots() ==> Translate(s'.mem, r, v) == Translate(s.mem, r, v)
  {
    hide Translate, Walk, RootLink, ChildLink, ParentLink;
    assert s'.Roots() == s.Roots();
    OwnedTree(s, s');
    assert forall f: nat :: s'.Owned(f) <==> s.Owned(f);
    forall r, v: nat | r in s.Roots() ensures Translate(s'.mem, r, v) == Translate(s.mem, r, v) {
      OwnedTranslate(s, s', r, v);
    }
  }

  lemma OwnedTree(s: State, s': State)
    requires Inv(s) && s' == s.(mem := s'.mem)
    requires forall f: nat :: s.Owned(f) && f in s.mem ==> f in s'.mem && s'.mem[f] == s.mem[f]
    ensures TreeInv(s'.mem, s'.tables, s.Roots())
  {
    hide Present, Huge, WalkFrame, LinksTo;
    forall f: nat | f in s.tables || f in s.Roots() ensures f in s'.mem && s'.mem[f] == s.mem[f] { assert s.Owned(f); }
    forall r, i | r in s.Roots() && 0 <= i < 512 ensures RootLink(s'.mem, s.tables, r, i) {
      assert RootLink(s.mem, s.tables, r, i);
    }
    forall t, i | t in s.tables && 0 <= i < 512 ensures ChildLink(s'.mem, s.tables, t, i) {
      assert ChildLink(s.mem, s.tables, t, i);
    }
    forall t | t in s.tables ensures ParentLink(s'.mem, s.tables, s.Roots(), t) {
      assert ParentLink(s.mem, s.tables, s.Roots(), t);
    }
  }

  lemma OwnedTranslate(s: State, s': State, r: nat, v: nat)
    requires Inv(s) && r in s.Roots()
    requires forall f: nat :: s.Owned(f) && f in s.mem ==> f in s'.mem && s'.mem[f] == s.mem[f]
    ensures Translate(s'.mem, r, v) == Translate(s.mem, r, v)
  {
    hide Present, Huge, WalkFrame, Ix, RootLink, ChildLink, ParentLink;
    forall f: nat | f in s.tables || f in s.Roots() ensures f in s'.mem && s'.mem[f] == s.mem[f] { assert s.Owned(f); }
    WalkStable(s.mem, s'.mem, s.tables, s.Roots(), r, v, 1);
    if Walk(s.mem, r, v, 1).Table? { WalkFacts(s.mem, s.tables, s.Roots(), r, v, 1); }
  }

  lemma NextChunk(win: seq<Byte>, va: nat, data: seq<Byte>, memsz: nat, copied: nat, chunk: nat)
    requires |win| == 2 * (va % 4096) + memsz && copied < memsz
    requires copied == 0 || (va + copied) % 4096 == 0
    requires chunk == ChunkLen(va, memsz, copied)
    ensures var at := va % 4096 + copied + (va + copied) % 4096;
      && at + chunk <= |win|
      && CopyFrom(win, va, data, memsz, copied) ==
         CopyFrom(Splice(win, at, Chunk(data, copied, chunk)), va, data, memsz, copied + chunk)
  {
    hide Splice, Chunk;
  }

  lemma CopyDone(win: seq<Byte>, va: nat, data: seq<Byte>, memsz: nat)
    requires |win| == 2 * (va % 4096) + memsz
    ensures CopyFrom(win, va, data, memsz, memsz) == win
  {
  }

  lemma SameAgain(mem: Mem)
    ensures SameShape(mem, mem)
  {
  }

  lemma ShapeTrans(m0: Mem, m1: Mem, m2: Mem)
    requires SameShape(m0, m1) && SameShape(m1, m2)
    ensures SameShape(m0, m2)
  {
  }
}
