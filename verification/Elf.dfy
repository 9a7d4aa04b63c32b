/** Loading an executable: mapping and filling its PT_LOAD segments. */
module Elf {
  import opened Common
  import opened Bits
  import opened Pte
  import opened PageTables
  import opened Spaces
  import opened Vmm
  import opened Runs
  import opened Fork
  import opened ZeroedRange
  import opened PhysBytes
  import Pmm

  // ---- Segments ----

  /** A program header; `load` says its type is PT_LOAD. */
  datatype Phdr = Phdr(load: bool, va: nat, offset: nat, filesz: nat, memsz: nat, writable: bool, exec: bool)

  function Pages(ph: Phdr): nat { (ph.memsz + 4095) / 4096 }

  /** Present and user, writable and no-execute as the header asks. */
  function Flags(ph: Phdr): (flags: nat)
    ensures flags / 4096 % FRAME_LIMIT == 0
  {
    (if ph.writable then 7 else 5) + (if ph.exec then 0 else 0x8000_0000_0000_0000)
  }

  function FileBytes(file: seq<Byte>, ph: Phdr): seq<Byte> {
    if ph.offset + ph.filesz <= |file| then file[ph.offset..ph.offset + ph.filesz] else []
  }

  /** Byte `i` of a segment's memory image: the file's bytes, then zeros. */
  function ImageByte(data: seq<Byte>, memsz: nat, i: nat): Byte {
    if i < |data| && i < memsz then data[i] else 0
  }

  function ImagePage(data: seq<Byte>, memsz: nat, j: nat): (p: seq<Byte>)
    ensures |p| == 4096
  {
    seq<Byte>(4096, o requires 0 <= o < 4096 => ImageByte(data, memsz, 4096 * j + o))
  }

  ghost predicate PageLoaded(s: State, f: nat, data: seq<Byte>, memsz: nat, j: nat) {
    f in s.mem && |s.mem[f]| == 512 && PageBytes(s.mem[f]) == ImagePage(data, memsz, j)
  }

  /** The range is mapped to fresh frames and the first `done` pages are filled. */
  ghost predicate Filling(s0: State, s: State, root: nat, vpn: nat, n: nat, done: nat, first: nat, flags: nat,
                          data: seq<Byte>, memsz: nat) {
    && s.spaces == s0.spaces && s.total == s0.total && s.kernel == s0.kernel && done <= n
    && RangeMapped(s0, s, root, vpn, n, first, flags) && DataKept(s0, s)
    && FramesFilled(s0, s, n, done, first, data, memsz)
  }

  ghost predicate FramesFilled(s0: State, s: State, n: nat, done: nat, first: nat, data: seq<Byte>, memsz: nat) {
    forall f :: first <= f < first + n ==> FrameFilled(s0, s, f, done, first, data, memsz)
  }

  ghost predicate FrameFilled(s0: State, s: State, f: nat, done: nat, first: nat, data: seq<Byte>, memsz: nat)
    requires first <= f
  {
    && FreshData(s0, s, f)
    && if f < first + done then PageLoaded(s, f, data, memsz, f - first) else s.mem[f] == ZeroFrame()
  }

  lemma RangedIsFilling(s0: State, s: State, root: nat, vpn: nat, n: nat, first: nat, flags: nat,
                        data: seq<Byte>, memsz: nat)
    requires Ranged(s0, s, root, vpn, n, n, first, flags)
    ensures Filling(s0, s, root, vpn, n, 0, first, flags, data, memsz)
  {
    hide RangeMapped, DataKept;
    forall f | first <= f < first + n ensures FrameFilled(s0, s, f, 0, first, data, memsz) {
      assert FreshData(s0, s, f);
    }
  }

  /** Filling the next page. */
  lemma FillStep(s0: State, s: State, s': State, root: nat, vpn: nat, n: nat, done: nat, first: nat, flags: nat,
                 data: seq<Byte>, memsz: nat, words: seq<nat>)
    requires Inv(s) && Filling(s0, s, root, vpn, n, done, first, flags, data, memsz) && done < n
    requires |words| == 512 && s' == s.(mem := s.mem[first + done := words])
    requires PageBytes(words) == ImagePage(data, memsz, done)
    ensures Inv(s') && Filling(s0, s', root, vpn, n, done + 1, first, flags, data, memsz)
  {
    hide Inv, Translate, PageBytes, ImagePage;
    var g := first + done;
    assert FrameFilled(s0, s, g, done, first, data, memsz);
    WriteKeepsInv(s, s', g, words);
    assert s'.Roots() == s.Roots() == s0.Roots();
    forall r, v: nat | r in s0.Roots() && v < VPN_LIMIT
      ensures Translate(s'.mem, r, v) == RangeTranslate(s0, root, vpn, n, first, flags, r, v)
    {
      WriteTranslate(s, s', g, words, r, v);
    }
    FillFrames(s0, s, s', n, done, first, data, memsz, words);
  }

  lemma FillFrames(s0: State, s: State, s': State, n: nat, done: nat, first: nat,
                   data: seq<Byte>, memsz: nat, words: seq<nat>)
    requires FramesFilled(s0, s, n, done, first, data, memsz) && DataKept(s0, s) && done < n
    requires |words| == 512 && s' == s.(mem := s.mem[first + done := words])
    requires PageBytes(words) == ImagePage(data, memsz, done)
    ensures FramesFilled(s0, s', n, done + 1, first, data, memsz) && DataKept(s0, s')
  {
    hide FrameFilled, PageBytes, ImagePage, DataKept;
    assert FrameFilled(s0, s, first + done, done, first, data, memsz);
    FrameIsFresh(s0, s, first + done, done, first, data, memsz);
    WriteKeepsData(s0, s, s', first + done, words);
    var next := done + 1;
    forall f | first <= f < first + n ensures FrameFilled(s0, s', f, next, first, data, memsz) {
      assert FrameFilled(s0, s, f, done, first, data, memsz);
      FrameStep(s0, s, s', f, done, first, data, memsz, words);
    }
  }

  lemma FrameIsFresh(s0: State, s: State, f: nat, done: nat, first: nat, data: seq<Byte>, memsz: nat)
    requires first <= f && FrameFilled(s0, s, f, done, first, data, memsz)
    ensures FreshData(s0, s, f)
  {
  }

  lemma FrameStep(s0: State, s: State, s': State, f: nat, done: nat, first: nat,
                  data: seq<Byte>, memsz: nat, words: seq<nat>)
    requires first <= f && FrameFilled(s0, s, f, done, first, data, memsz)
    requires |words| == 512 && s' == s.(mem := s.mem[first + done := words])
    requires PageBytes(words) == ImagePage(data, memsz, done)
    ensures FrameFilled(s0, s', f, done + 1, first, data, memsz)
  {
    hide PageBytes, ImagePage, ZeroFrame, FreshData, PageLoaded;
    FrameAfter(s0, s, s', f, first + done, words);
    if f < first + done {
      PageStays(s, s', f, data, memsz, f - first);
    } else if f == first + done {
      PageArrives(s', f, words, data, memsz, done);
    }
  }

  lemma FrameAfter(s0: State, s: State, s': State, f: nat, g: nat, words: seq<nat>)
    requires FreshData(s0, s, f) && |words| == 512 && s' == s.(mem := s.mem[g := words])
    ensures FreshData(s0, s', f) && f in s.mem && s'.mem[f] == if f == g then words else s.mem[f]
  {
    assert s'.Owned(f) <==> s.Owned(f);
  }

  lemma WriteKeepsData(s0: State, s: State, s': State, g: nat, words: seq<nat>)
    requires DataKept(s0, s) && FreshData(s0, s, g) && s' == s.(mem := s.mem[g := words])
    ensures DataKept(s0, s')
  {
    assert forall f: nat :: s'.Owned(f) <==> s.Owned(f);
  }

  lemma PageStays(s: State, s': State, f: nat, data: seq<Byte>, memsz: nat, j: nat)
    requires PageLoaded(s, f, data, memsz, j) && f in s'.mem && s'.mem[f] == s.mem[f]
    ensures PageLoaded(s', f, data, memsz, j)
  {
    hide PageBytes, ImagePage;
  }

  lemma PageArrives(s: State, f: nat, words: seq<nat>, data: seq<Byte>, memsz: nat, j: nat)
    requires f in s.mem && s.mem[f] == words && |words| == 512 && PageBytes(words) == ImagePage(data, memsz, j)
    ensures PageLoaded(s, f, data, memsz, j)
  {
    hide PageBytes, ImagePage;
  }

  /** Stores bytes at a physical address, inside one frame. */
  method Store(m: Manager, pa: nat, data: seq<Byte>)
    requires WholeFrame(m.mem, pa / 4096) && 0 < |data| <= 4096 - pa % 4096
    modifies m`mem
    ensures Stored(old(m.mem), m.mem, pa, data)
  {
    hide PageBytes, Packed, Splice, Stored;
    var bytes := Splice(PageBytes(m.mem[pa / 4096]), pa % 4096, data);
    PackedBytes(bytes);
    StoredInFrame(m.mem, pa, data, Packed(bytes));
    m.mem := m.mem[pa / 4096 := Packed(bytes)];
  }

  /** memcpy and memset through the direct map: physical memory is contiguous, so bytes past the end of a
      frame go to the next one. */
  method StoreAcross(m: Manager, pa: nat, data: seq<Byte>)
    requires Backed(m.mem, pa, |data|) && |data| <= 4096
    modifies m`mem
    ensures Stored(old(m.mem), m.mem, pa, data)
  {
    hide PageBytes, Stored, Backed;
    var room := 4096 - pa % 4096;
    if data == [] {
      StoredNothing(m.mem, pa);
      return;
    }
    BackedAt(m.mem, pa, |data|, pa);
    if |data| <= room {
      Store(m, pa, data);
      return;
    }
    NextFrame(pa);
    BackedAt(m.mem, pa, |data|, pa + room);
    Store(m, pa, data[..room]);
    ghost var m1 := m.mem;
    StoredShape(old(m.mem), m1, pa, data[..room]);
    Store(m, pa + room, data[room..]);
    StoredTrans(old(m.mem), m1, m.mem, pa, data[..room], data[room..]);
    assert data[..room] + data[room..] == data;
  }

  lemma BackedAt(mem: Mem, pa: nat, n: nat, a: nat)
    requires Backed(mem, pa, n) && pa <= a < pa + n
    ensures WholeFrame(mem, a / 4096)
  {
  }

  lemma NextFrame(pa: nat)
    ensures (pa + 4096 - pa % 4096) % 4096 == 0
  {
  }

  lemma StoredShape(mem: Mem, mem': Mem, pa: nat, data: seq<Byte>)
    requires Stored(mem, mem', pa, data)
    ensures SameShape(mem, mem')
  {
  }

  /** What one chunk stores: file bytes while there are any, then zeros. */
  function Chunk(data: seq<Byte>, copied: nat, n: nat): (c: seq<Byte>)
    ensures |c| == n
  {
    seq<Byte>(n, o requires 0 <= o < n => if copied + o < |data| then data[copied + o] else 0)
  }

  /** The copy of one chunk, file bytes and then zeros. `phys` is what GetPhysicalAddress gave for the
      chunk, page offset included, and the page offset is added to it once more. */
  method CopyChunk(m: Manager, phys: nat, pageOff: nat, data: seq<Byte>, copied: nat, chunk: nat)
    requires chunk <= 4096 && Backed(m.mem, phys + pageOff, chunk)
    modifies m`mem
    ensures Stored(old(m.mem), m.mem, phys + pageOff, Chunk(data, copied, chunk))
  {
    hide Stored, Backed;
    var kv := phys + pageOff;
    var fileChunk := 0;
    StoredNothing(m.mem, kv);
    assert data[0..0] == [];
    if copied < |data| {
      var remain := |data| - copied;
      fileChunk := if chunk > remain then remain else chunk;
      BackedPart(m.mem, kv, chunk, kv, fileChunk);
      StoreAcross(m, kv, data[copied..copied + fileChunk]);
    }
    ghost var m1, head := m.mem, if fileChunk == 0 then [] else data[copied..copied + fileChunk];
    assert Stored(old(m.mem), m1, kv, head) by {
      if copied < |data| && fileChunk == 0 { assert data[copied..copied] == []; }
    }
    StoredNothing(m.mem, kv + fileChunk);
    if chunk > fileChunk {
      StoredShape(old(m.mem), m1, kv, head);
      BackedStays(old(m.mem), m1, kv, chunk);
      BackedPart(m.mem, kv, chunk, kv + fileChunk, chunk - fileChunk);
      StoreAcross(m, kv + fileChunk, Zeros(chunk - fileChunk));
    } else {
      assert Zeros(0) == [];
    }
    StoredTrans(old(m.mem), m1, m.mem, kv, head, Zeros(chunk - fileChunk));
    assert head + Zeros(chunk - fileChunk) == Chunk(data, copied, chunk);
  }

  lemma BackedPart(mem: Mem, pa: nat, n: nat, pb: nat, k: nat)
    requires Backed(mem, pa, n) && pa <= pb && pb + k <= pa + n
    ensures Backed(mem, pb, k)
  {
  }

  /** A whole frame lies in memory. */
  lemma FrameBacked(mem: Mem, f: nat, n: nat)
    requires WholeFrame(mem, f) && n <= 4096
    ensures Backed(mem, f * 4096, n)
  {
    forall a: nat | f * 4096 <= a < f * 4096 + n ensures a / 4096 == f {}
  }

  /** A chunk from the start of a zeroed frame makes it the segment's page. */
  lemma ChunkMakesPage(mem: Mem, mem': Mem, f: nat, data: seq<Byte>, memsz: nat, copied: nat, chunk: nat)
    requires f in mem && mem[f] == ZeroFrame() && copied % 4096 == 0 && copied < memsz
    requires chunk == if memsz - copied < 4096 then memsz - copied else 4096
    requires Stored(mem, mem', f * 4096, Chunk(data, copied, chunk))
    ensures WholeFrame(mem', f) && mem' == mem[f := mem'[f]]
    ensures PageBytes(mem'[f]) == ImagePage(data, memsz, copied / 4096)
  {
    hide PageBytes, Stored;
    StoredOneFrame(mem, mem', f, Chunk(data, copied, chunk));
    var page, want := PageBytes(mem'[f]), ImagePage(data, memsz, copied / 4096);
    assert 4096 * (copied / 4096) == copied;
    forall o | 0 <= o < 4096 ensures page[o] == want[o] {
      ZeroBytes(o);
      assert want[o] == ImageByte(data, memsz, copied + o);
    }
  }

  /** The pages of a segment in the user half, unmapped so far. */
  ghost predicate Fits(s: State, k: nat, ph: Phdr)
    requires k in s.spaces
  {
    && ph.va % 4096 == 0 && ph.va + ph.memsz + 8190 <= USER_PAGES * 4096
    && forall v: nat :: InPages(ph, v) ==> View(s, k, v) == Unmapped
  }

  predicate InPages(ph: Phdr, v: nat) { ph.va / 4096 <= v < ph.va / 4096 + Pages(ph) }

  /** Nothing but the pages of one range changed. */
  ghost predicate OnlyRange(s0: State, s: State, root: nat, vpn: nat, n: nat) {
    && s.spaces == s0.spaces && s.total == s0.total && s.kernel == s0.kernel && DataKept(s0, s)
    && forall r, v: nat :: r in s0.Roots() && v < VPN_LIMIT && !(r == root && vpn <= v < vpn + n) ==>
         Translate(s.mem, r, v) == Translate(s0.mem, r, v)
  }

  lemma RangedOnly(s0: State, s: State, root: nat, vpn: nat, n: nat, n': nat, done: nat, first: nat, flags: nat)
    requires Ranged(s0, s, root, vpn, n', done, first, flags) && done <= n
    ensures OnlyRange(s0, s, root, vpn, n)
  {
    hide Translate, DataKept, RunHeld;
    forall r, v: nat | r in s0.Roots() && v < VPN_LIMIT && !(r == root && vpn <= v < vpn + n)
      ensures Translate(s.mem, r, v) == Translate(s0.mem, r, v)
    {
      assert Translate(s.mem, r, v) == RangeTranslate(s0, root, vpn, done, first, flags, r, v);
    }
  }

  lemma FillingOnly(s0: State, s: State, root: nat, vpn: nat, n: nat, done: nat, first: nat, flags: nat,
                    data: seq<Byte>, memsz: nat)
    requires Filling(s0, s, root, vpn, n, done, first, flags, data, memsz)
    ensures OnlyRange(s0, s, root, vpn, n)
  {
    hide Translate, DataKept, FramesFilled;
    forall r, v: nat | r in s0.Roots() && v < VPN_LIMIT && !(r == root && vpn <= v < vpn + n)
      ensures Translate(s.mem, r, v) == Translate(s0.mem, r, v)
    {
      assert Translate(s.mem, r, v) == RangeTranslate(s0, root, vpn, n, first, flags, r, v);
    }
  }

  /** Where the loader finds page `done` of the segment. */
  lemma FillTarget(s0: State, s: State, k: nat, ph: Phdr, done: nat, first: nat, data: seq<Byte>)
    requires k in s0.spaces && Inv(s0) && Inv(s) && Fits(s0, k, ph) && done < Pages(ph)
    requires Filling(s0, s, s0.spaces[k].pml4, ph.va / 4096, Pages(ph), done, first, Flags(ph), data, ph.memsz)
    ensures var v := ph.va / 4096 + done;
      && v < USER_PAGES && VpnOf(ph.va + 4096 * done) == v && (ph.va + 4096 * done) % 4096 == 0
      && Translate(s.mem, s.spaces[k].pml4, v).Page?
      && LeafFrame(Translate(s.mem, s.spaces[k].pml4, v).entry) == first + done
      && first + done in s.mem && s.mem[first + done] == ZeroFrame() && first + done > 0
  {
    hide Inv, Translate, DataKept, Flags, LeafEntry, LeafFrame, And, FreshData, RangeMapped;
    var v := ph.va / 4096 + done;
    PageOf(ph.va, ph.memsz, done);
    VaOf(ph.va, done);
    FillTranslate(s0, s, k, ph, done, first, data);
    assert FrameFilled(s0, s, first + done, done, first, data, ph.memsz);
    FreshFacts(s0, s, first + done);
    EntryFrame(first + done, Flags(ph));
  }

  lemma VaOf(va: nat, done: nat)
    requires va % 4096 == 0 && va / 4096 < VPN_LIMIT
    ensures VpnOf(va) == va / 4096 && 4096 * done == done * 4096
  {
  }

  lemma FillTranslate(s0: State, s: State, k: nat, ph: Phdr, done: nat, first: nat, data: seq<Byte>)
    requires k in s0.spaces && Inv(s0) && Fits(s0, k, ph) && done < Pages(ph)
    requires RangeMapped(s0, s, s0.spaces[k].pml4, ph.va / 4096, Pages(ph), first, Flags(ph))
    requires ph.va / 4096 + done < USER_PAGES
    ensures Translate(s.mem, s0.spaces[k].pml4, ph.va / 4096 + done)
         == Page(LeafEntry((first + done) * 4096, Flags(ph)))
  {
    hide Inv, Translate, LeafEntry, Flags;
    var v := ph.va / 4096 + done;
    assert InPages(ph, v);
    assert s0.spaces[k].pml4 in s0.Roots();
    assert Translate(s.mem, s0.spaces[k].pml4, v)
        == RangeTranslate(s0, s0.spaces[k].pml4, ph.va / 4096, Pages(ph), first, Flags(ph), s0.spaces[k].pml4, v);
  }

  lemma FreshFacts(s0: State, s: State, f: nat)
    requires FreshData(s0, s, f)
    ensures f in s.mem && |s.mem[f]| == 512 && 0 < f < FRAME_LIMIT && f in s.used && !s.Owned(f) && f !in s0.used
  {
  }

  /** The entry the loader maps a frame with leads back to that frame. */
  lemma EntryFrame(f: nat, flags: nat)
    requires f < FRAME_LIMIT && flags / 4096 % FRAME_LIMIT == 0
    ensures And(LeafEntry(f * 4096, flags), ADDR_MASK) == f * 4096 && LeafFrame(LeafEntry(f * 4096, flags)) == f
  {
    hide Present, LeafEntry, And, Or, Bit;
    AddrField(flags);
    LeafEntryFrame(f * 4096, flags);
    var e := LeafEntry(f * 4096, flags);
    AddrField(e);
  }

  /** The copy loop of one segment. It never fails on a range that was just mapped. */
  method CopySegment(m: Manager, k: nat, ph: Phdr, data: seq<Byte>, ghost s0: State, ghost first: nat)
    returns (ok: bool)
    requires m.Valid() && k in m.spaces && Inv(s0) && k in s0.spaces && m.spaces == s0.spaces && Fits(s0, k, ph)
    requires Filling(s0, m.Snap(), s0.spaces[k].pml4, ph.va / 4096, Pages(ph), 0, first, Flags(ph), data, ph.memsz)
    modifies m`mem, m`tables, m.pmm, m.pmm.bitmap
    ensures m.Valid() && m.spaces == s0.spaces && ok && m.pmm.freePages == old(m.pmm.freePages)
    ensures Filling(s0, m.Snap(), s0.spaces[k].pml4, ph.va / 4096, Pages(ph), Pages(ph), first, Flags(ph),
                    data, ph.memsz)
  {
    hide Inv, Filling, Fits, Flags, Pmm.UsedIn;
    var copied := 0;
    ghost var j := 0;
    while copied < ph.memsz
      invariant copied <= ph.memsz && j <= Pages(ph)
      invariant if copied < ph.memsz then copied == 4096 * j else j == Pages(ph)
      invariant m.Valid() && m.spaces == s0.spaces && m.pmm.freePages == old(m.pmm.freePages)
      invariant Filling(s0, m.Snap(), s0.spaces[k].pml4, ph.va / 4096, Pages(ph), j, first, Flags(ph), data, ph.memsz)
    {
      var chunk;
      ok, chunk := CopyTurn(m, k, ph, data, copied, s0, first);
      if !ok {
        return false;
      }
      Advance(ph, copied, chunk, j);
      copied := copied + chunk;
      j := j + 1;
    }
    return true;
  }

  lemma Advance(ph: Phdr, copied: nat, chunk: nat, j: nat)
    requires copied == 4096 * j && copied < ph.memsz
    requires chunk == if ph.memsz - copied < 4096 then ph.memsz - copied else 4096
    ensures j < Pages(ph) && copied + chunk <= ph.memsz
    ensures if copied + chunk < ph.memsz then copied + chunk == 4096 * (j + 1) else j + 1 == Pages(ph)
  {
  }

  method CopyTurn(m: Manager, k: nat, ph: Phdr, data: seq<Byte>, copied: nat, ghost s0: State, ghost first: nat)
    returns (ok: bool, chunk: nat)
    requires m.Valid() && k in m.spaces && Inv(s0) && k in s0.spaces && m.spaces == s0.spaces && Fits(s0, k, ph)
    requires copied < ph.memsz && copied % 4096 == 0
    requires Filling(s0, m.Snap(), s0.spaces[k].pml4, ph.va / 4096, Pages(ph), copied / 4096, first, Flags(ph),
                     data, ph.memsz)
    modifies m`mem, m`tables, m.pmm, m.pmm.bitmap
    ensures m.Valid() && m.spaces == s0.spaces && ok && m.pmm.freePages == old(m.pmm.freePages)
    ensures chunk == if ph.memsz - copied < 4096 then ph.memsz - copied else 4096
    ensures Filling(s0, m.Snap(), s0.spaces[k].pml4, ph.va / 4096, Pages(ph), copied / 4096 + 1, first, Flags(ph),
                    data, ph.memsz)
  {
    hide Inv, Filling, Fits, Flags, Pmm.UsedIn, Translate, PageBytes, ImagePage, VpnOf, PhysOf, Stored, Backed;
    ghost var j, s := copied / 4096, m.Snap();
    Advance(ph, copied, if ph.memsz - copied < 4096 then ph.memsz - copied else 4096, j);
    FillTarget(s0, s, k, ph, j, first, data);
    InUserHalf(ph.va / 4096 + j);
    UserWalkable(s, k, ph.va / 4096 + j);
    ok, chunk := false, 0;
    var dst := ph.va + copied;
    var phys := m.GetPhysicalAddress(Some(k), dst);
    assert phys == (first + j) * 4096;
    if phys == 0 {
      return;
    }
    var pageOff := dst % 4096;
    chunk := 4096 - pageOff;
    var remain := ph.memsz - copied;
    if chunk > remain {
      chunk := remain;
    }
    FrameBacked(m.mem, first + j, chunk);
    CopyChunk(m, phys, pageOff, data, copied, chunk);
    ChunkMakesPage(s.mem, m.mem, first + j, data, ph.memsz, copied, chunk);
    FillStep(s0, s, m.Snap(), s0.spaces[k].pml4, ph.va / 4096, Pages(ph), j, first, Flags(ph), data, ph.memsz,
             m.mem[first + j]);
    return true, chunk;
  }

  /** Headers that never load: an empty segment, since no pages can be allocated for it, and one whose
      bytes the file does not hold. */
  predicate Unloadable(file: seq<Byte>, ph: Phdr) {
    ph.memsz == 0 || (ph.filesz > 0 && ph.offset + ph.filesz > |file|)
  }

  /** One PT_LOAD header: map its pages, read its bytes, copy them. */
  method LoadSegment(m: Manager, k: nat, file: seq<Byte>, ph: Phdr) returns (ok: bool, ghost first: nat)
    requires m.Valid() && k in m.spaces && Fits(m.Snap(), k, ph)
    modifies m`mem, m`tables, m.pmm, m.pmm.bitmap
    ensures m.Valid() && m.spaces == old(m.spaces)
    ensures OnlyRange(old(m.Snap()), m.Snap(), m.spaces[k].pml4, ph.va / 4096, Pages(ph))
    ensures ok ==> !Unloadable(file, ph)
    ensures ok ==> Filling(old(m.Snap()), m.Snap(), m.spaces[k].pml4, ph.va / 4096, Pages(ph), Pages(ph), first,
                           Flags(ph), FileBytes(file, ph), ph.memsz)
    ensures !ok ==> || Unloadable(file, ph) || NoRun(old(m.pmm.Used()), m.pmm.totalPages, Pages(ph))
                    || m.pmm.freePages == 0
    ensures old(m.pmm.freePages) >= 4 * Pages(ph) && !NoRun(old(m.pmm.Used()), m.pmm.totalPages, Pages(ph)) ==>
      (ok <==> !Unloadable(file, ph))
    ensures old(m.pmm.Used()) <= m.pmm.Used() && m.pmm.freePages >= old(m.pmm.freePages) - 4 * Pages(ph)
  {
    hide Inv, Filling, Ranged, OnlyRange, Pmm.UsedIn, Flags, NoRun, Missing;
    ghost var s0, root := m.Snap(), m.spaces[k].pml4;
    var vaStart := ph.va - ph.va % 4096;
    var vaEnd := (ph.va + ph.memsz + 4095) / 4096 * 4096;
    RangeLength(ph);
    ghost var taken, done;
    ok, first, taken, done := VirtMapRangeZeroed(m, k, vaStart, vaEnd - vaStart, Flags(ph));
    ghost var s1 := m.Snap();
    RangedOnly(s0, s1, root, ph.va / 4096, Pages(ph), taken, done, first, Flags(ph));
    OnlyRangeUsed(s0, s1, root, ph.va / 4096, Pages(ph));
    if !ok {
      return;
    }
    var data := [];
    if ph.filesz > 0 {
      if ph.offset + ph.filesz > |file| {
        return false, first;
      }
      data := file[ph.offset..ph.offset + ph.filesz];
    }
    assert data == FileBytes(file, ph);
    RangedIsFilling(s0, s1, root, ph.va / 4096, Pages(ph), first, Flags(ph), data, ph.memsz);
    ok := CopySegment(m, k, ph, data, s0, first);
    FillingOnly(s0, m.Snap(), root, ph.va / 4096, Pages(ph), Pages(ph), first, Flags(ph), data, ph.memsz);
    OnlyRangeUsed(s0, m.Snap(), root, ph.va / 4096, Pages(ph));
  }

  lemma OnlyRangeUsed(s0: State, s: State, root: nat, vpn: nat, n: nat)
    requires OnlyRange(s0, s, root, vpn, n)
    ensures s0.used <= s.used && s.total == s0.total
  {
  }

  /** A run that is nowhere free is not free later, when more is used. */
  lemma NoRunLater(used: set<nat>, used': set<nat>, total: nat, n: nat)
    requires NoRun(used, total, n) && used <= used'
    ensures NoRun(used', total, n)
  {
    forall start: nat ensures !Pmm.FreeRun(used', total, start, n) {
      assert !Pmm.FreeRun(used, total, start, n);
    }
  }

  lemma RangeLength(ph: Phdr)
    requires ph.va % 4096 == 0 && ph.va + ph.memsz + 8190 <= USER_PAGES * 4096
    ensures var len := (ph.va + ph.memsz + 4095) / 4096 * 4096 - ph.va;
      0 <= len && (len + 4095) / 4096 == Pages(ph) && ph.va + len + 4095 <= USER_PAGES * 4096
    ensures VpnOf(ph.va) == ph.va / 4096
  {
    var q, n := ph.va / 4096, Pages(ph);
    assert ph.va == q * 4096;
    assert (ph.va + ph.memsz + 4095) / 4096 == q + n;
  }

  // ---- The whole program ----

  /** The segment is in memory: consecutive fresh frames with the header's flags hold its image. */
  ghost predicate SegmentIn(s0: State, s: State, root: nat, ph: Phdr, file: seq<Byte>, first: nat) {
    forall j :: 0 <= j < Pages(ph) ==> PageIn(s0, s, root, ph, file, first, j)
  }

  ghost predicate PageIn(s0: State, s: State, root: nat, ph: Phdr, file: seq<Byte>, first: nat, j: nat) {
    && Translate(s.mem, root, ph.va / 4096 + j) == Page(LeafEntry((first + j) * 4096, Flags(ph)))
    && FreshData(s0, s, first + j)
    && PageLoaded(s, first + j, FileBytes(file, ph), ph.memsz, j)
  }

  ghost predicate Disjoint(a: Phdr, b: Phdr) {
    a.va / 4096 + Pages(a) <= b.va / 4096 || b.va / 4096 + Pages(b) <= a.va / 4096
  }

  /** Page-aligned segments in the user half that share no page with each other or with what is mapped. */
  ghost predicate Loadable(s: State, k: nat, phs: seq<Phdr>)
    requires k in s.spaces
  {
    && (forall i :: 0 <= i < |phs| && phs[i].load ==> Fits(s, k, phs[i]))
    && (forall i, j :: 0 <= i < j < |phs| && phs[i].load && phs[j].load ==> Disjoint(phs[i], phs[j]))
  }

  predicate Covered(phs: seq<Phdr>, v: nat) { exists i :: 0 <= i < |phs| && phs[i].load && InPages(phs[i], v) }

  /** All translations outside the segments, in every space, and all allocated data frames are as before. */
  ghost predicate Elsewhere(s0: State, s: State, root: nat, phs: seq<Phdr>) {
    && s.spaces == s0.spaces && s.total == s0.total && s.kernel == s0.kernel && DataKept(s0, s)
    && forall r, v: nat :: r in s0.Roots() && v < VPN_LIMIT && !(r == root && Covered(phs, v)) ==>
         Translate(s.mem, r, v) == Translate(s0.mem, r, v)
  }

  /** The segments before `i` are in memory, and nothing else changed. */
  ghost predicate LoadedUpTo(s0: State, s: State, root: nat, phs: seq<Phdr>, file: seq<Byte>, firsts: seq<nat>, i: nat)
    requires i <= |phs| && |firsts| == i
  {
    && Elsewhere(s0, s, root, phs[..i])
    && forall a :: 0 <= a < i && phs[a].load ==> SegmentIn(s0, s, root, phs[a], file, firsts[a])
  }

  lemma Chain(s0: State, s: State, s': State, root: nat, phs: seq<Phdr>, i: nat)
    requires i < |phs| && phs[i].load && Elsewhere(s0, s, root, phs[..i]) && s.Roots() == s0.Roots()
    requires OnlyRange(s, s', root, phs[i].va / 4096, Pages(phs[i]))
    ensures Elsewhere(s0, s', root, phs[..i + 1])
  {
    hide Translate, Pages;
    forall f: nat | f in s0.used && !s0.Owned(f)
      ensures f in s'.mem && f in s0.mem && s'.mem[f] == s0.mem[f] && !s'.Owned(f)
    {
      assert f in s.used && !s.Owned(f);
    }
    forall r, v: nat | r in s0.Roots() && v < VPN_LIMIT && !(r == root && Covered(phs[..i + 1], v))
      ensures Translate(s'.mem, r, v) == Translate(s0.mem, r, v)
    {
      CoveredStep(phs, i, v);
      assert Translate(s.mem, r, v) == Translate(s0.mem, r, v);
    }
  }

  lemma CoveredStep(phs: seq<Phdr>, i: nat, v: nat)
    requires i < |phs|
    ensures Covered(phs[..i + 1], v) <==> Covered(phs[..i], v) || (phs[i].load && InPages(phs[i], v))
  {
    hide InPages;
    if Covered(phs[..i], v) {
      var a :| 0 <= a < i && phs[..i][a].load && InPages(phs[..i][a], v);
      assert phs[..i + 1][a] == phs[..i][a];
    }
    if phs[i].load && InPages(phs[i], v) { assert phs[..i + 1][i] == phs[i]; }
    if Covered(phs[..i + 1], v) {
      var a :| 0 <= a < i + 1 && phs[..i + 1][a].load && InPages(phs[..i + 1][a], v);
      if a < i { assert phs[..i][a] == phs[..i + 1][a]; }
    }
  }

  /** A segment already in memory survives the loading of another. */
  lemma SegmentStays(s0: State, s: State, s': State, root: nat, ph: Phdr, file: seq<Byte>, first: nat, vpn: nat, n: nat)
    requires Inv(s') && SegmentIn(s0, s, root, ph, file, first) && OnlyRange(s, s', root, vpn, n)
    requires root in s.Roots() && (ph.va / 4096 + Pages(ph) <= vpn || vpn + n <= ph.va / 4096)
    requires ph.va / 4096 + Pages(ph) <= VPN_LIMIT
    ensures SegmentIn(s0, s', root, ph, file, first)
  {
    hide Inv, Translate, Flags, LeafEntry, PageBytes, ImagePage;
    forall j | 0 <= j < Pages(ph) ensures PageIn(s0, s', root, ph, file, first, j) {
      assert PageIn(s0, s, root, ph, file, first, j);
    }
  }

  lemma SegmentArrives(s0: State, s: State, s': State, k: nat, ph: Phdr, file: seq<Byte>, first: nat)
    requires k in s.spaces && Inv(s) && Fits(s, k, ph) && s0.used <= s.used
    requires Filling(s, s', s.spaces[k].pml4, ph.va / 4096, Pages(ph), Pages(ph), first, Flags(ph),
                     FileBytes(file, ph), ph.memsz)
    ensures SegmentIn(s0, s', s.spaces[k].pml4, ph, file, first)
  {
    hide Inv, Translate, Flags, LeafEntry, DataKept, PageLoaded, FileBytes, RangeMapped;
    forall j | 0 <= j < Pages(ph) ensures PageIn(s0, s', s.spaces[k].pml4, ph, file, first, j) {
      LastPage(ph, j);
      FillTranslate(s, s', k, ph, j, first, FileBytes(file, ph));
      assert FrameFilled(s, s', first + j, Pages(ph), first, FileBytes(file, ph), ph.memsz);
    }
  }

  lemma LastPage(ph: Phdr, j: nat)
    requires ph.va % 4096 == 0 && ph.va + ph.memsz + 8190 <= USER_PAGES * 4096 && j < Pages(ph)
    ensures ph.va / 4096 + j < USER_PAGES
  {
  }

  lemma StillFits(s0: State, s: State, k: nat, phs: seq<Phdr>, i: nat)
    requires k in s0.spaces && Loadable(s0, k, phs) && i < |phs| && phs[i].load
    requires Inv(s0) && Elsewhere(s0, s, s0.spaces[k].pml4, phs[..i])
    ensures s.spaces == s0.spaces && Fits(s, k, phs[i])
  {
    hide Inv, Translate, Pages;
    var root := s0.spaces[k].pml4;
    assert root in s0.Roots();
    assert Fits(s0, k, phs[i]);
    forall v: nat | InPages(phs[i], v) ensures View(s, k, v) == Unmapped {
      PageBound(phs[i], v);
      assert View(s0, k, v) == Unmapped;
    }
  }

  lemma PageBound(ph: Phdr, v: nat)
    requires ph.va % 4096 == 0 && ph.va + ph.memsz + 8190 <= USER_PAGES * 4096 && InPages(ph, v)
    ensures v < VPN_LIMIT
  {
    LastPage(ph, v - ph.va / 4096);
  }

  lemma NothingLoaded(s0: State, root: nat, phs: seq<Phdr>, file: seq<Byte>)
    requires Inv(s0)
    ensures LoadedUpTo(s0, s0, root, phs, file, [], 0)
  {
    hide TreeInv, SpacesDistinct, Translate;
    forall f: nat | f in s0.used ensures f in s0.mem { assert f < s0.total; }
  }

  lemma LoadStep(s0: State, s: State, s': State, k: nat, phs: seq<Phdr>, file: seq<Byte>, firsts: seq<nat>, i: nat,
                 first: nat)
    requires k in s0.spaces && Loadable(s0, k, phs) && i < |phs| && phs[i].load && |firsts| == i
    requires Inv(s) && Inv(s') && LoadedUpTo(s0, s, s0.spaces[k].pml4, phs, file, firsts, i)
    requires OnlyRange(s, s', s0.spaces[k].pml4, phs[i].va / 4096, Pages(phs[i]))
    requires Fits(s, k, phs[i])
    requires Filling(s, s', s0.spaces[k].pml4, phs[i].va / 4096, Pages(phs[i]), Pages(phs[i]), first, Flags(phs[i]),
                     FileBytes(file, phs[i]), phs[i].memsz)
    ensures LoadedUpTo(s0, s', s0.spaces[k].pml4, phs, file, firsts + [first], i + 1)
  {
    hide Inv, OnlyRange, Filling, SegmentIn, FileBytes, Flags, Pages;
    var root := s0.spaces[k].pml4;
    ElsewhereSame(s0, s, root, phs[..i]);
    Chain(s0, s, s', root, phs, i);
    SegmentArrives(s0, s, s', k, phs[i], file, first);
    EarlierStay(s0, s, s', k, phs, file, firsts, i);
  }

  /** The segments loaded before header `i` survive its loading, also when it fails. */
  lemma EarlierStay(s0: State, s: State, s': State, k: nat, phs: seq<Phdr>, file: seq<Byte>, firsts: seq<nat>, i: nat)
    requires k in s0.spaces && Loadable(s0, k, phs) && i < |phs| && phs[i].load && |firsts| == i
    requires Inv(s') && LoadedUpTo(s0, s, s0.spaces[k].pml4, phs, file, firsts, i)
    requires OnlyRange(s, s', s0.spaces[k].pml4, phs[i].va / 4096, Pages(phs[i]))
    ensures forall a :: 0 <= a < i && phs[a].load ==> SegmentIn(s0, s', s0.spaces[k].pml4, phs[a], file, firsts[a])
  {
    hide Inv, OnlyRange, SegmentIn, Pages;
    var root := s0.spaces[k].pml4;
    ElsewhereSame(s0, s, root, phs[..i]);
    assert root in s.Roots();
    forall a | 0 <= a < i && phs[a].load ensures SegmentIn(s0, s', root, phs[a], file, firsts[a]) {
      assert Fits(s0, k, phs[a]) && Disjoint(phs[a], phs[i]);
      SegmentBound(phs[a]);
      SegmentStays(s0, s, s', root, phs[a], file, firsts[a], phs[i].va / 4096, Pages(phs[i]));
    }
  }

  lemma ElsewhereSame(s0: State, s: State, root: nat, phs: seq<Phdr>)
    requires Elsewhere(s0, s, root, phs)
    ensures s.spaces == s0.spaces && s.Roots() == s0.Roots() && s0.used <= s.used
  {
  }

  lemma SegmentBound(ph: Phdr)
    requires ph.va % 4096 == 0 && ph.va + ph.memsz + 8190 <= USER_PAGES * 4096
    ensures ph.va / 4096 + Pages(ph) <= VPN_LIMIT
  {
  }

  lemma SkipHeader(s0: State, s: State, root: nat, phs: seq<Phdr>, file: seq<Byte>, firsts: seq<nat>, i: nat)
    requires i < |phs| && |firsts| == i && !phs[i].load && LoadedUpTo(s0, s, root, phs, file, firsts, i)
    ensures LoadedUpTo(s0, s, root, phs, file, firsts + [0], i + 1)
  {
    hide SegmentIn, Translate, DataKept, InPages;
    forall v: nat ensures Covered(phs[..i + 1], v) <==> Covered(phs[..i], v) { CoveredStep(phs, i, v); }
  }

  lemma AllCovered(s0: State, s: State, root: nat, phs: seq<Phdr>, i: nat)
    requires i <= |phs| && Elsewhere(s0, s, root, phs[..i])
    ensures Elsewhere(s0, s, root, phs)
  {
    hide Translate, DataKept, InPages;
    forall v: nat | Covered(phs[..i], v) ensures Covered(phs, v) {
      var a :| 0 <= a < i && phs[..i][a].load && InPages(phs[..i][a], v);
      assert phs[a] == phs[..i][a];
    }
  }

  /** The pages of all PT_LOAD segments. */
  function SumPages(phs: seq<Phdr>): nat {
    if phs == [] then 0
    else SumPages(phs[..|phs| - 1]) + (if phs[|phs| - 1].load then Pages(phs[|phs| - 1]) else 0)
  }

  lemma {:induction false} SumMono(phs: seq<Phdr>, i: nat)
    requires i <= |phs|
    ensures SumPages(phs[..i]) <= SumPages(phs)
    decreases |phs| - i
  {
    if i < |phs| {
      SumStep(phs, i);
      SumMono(phs, i + 1);
    } else {
      assert phs[..i] == phs;
    }
  }

  lemma SumStep(phs: seq<Phdr>, i: nat)
    requires i < |phs|
    ensures SumPages(phs[..i + 1]) == SumPages(phs[..i]) + if phs[i].load then Pages(phs[i]) else 0
  {
    assert phs[..i + 1][..i] == phs[..i];
  }

  /** Why loading stopped at header `i`: the segments before it are in memory, the headers after it were not
      looked at, and this one never loads, finds no run of free pages, or ran the allocator dry. */
  ghost predicate StoppedAt(s0: State, s: State, root: nat, file: seq<Byte>, phs: seq<Phdr>, firsts: seq<nat>,
                            i: nat, free: nat) {
    && |firsts| == i < |phs| && phs[i].load
    && Elsewhere(s0, s, root, phs[..i + 1])
    && (forall a :: 0 <= a < i && phs[a].load ==> SegmentIn(s0, s, root, phs[a], file, firsts[a]))
    && (Unloadable(file, phs[i]) || NoRun(s.used, s.total, Pages(phs[i])) || free == 0)
  }

  /** Elf64Load over the program headers. On success every PT_LOAD segment is in memory; whether it
      succeeds or fails, nothing outside the segments' pages changes, and it takes at most four pages for
      every page of the segments. It fails only without headers or at a header that stops it. */
  method Elf64Load(m: Manager, k: nat, file: seq<Byte>, phs: seq<Phdr>) returns (ok: bool, ghost firsts: seq<nat>)
    requires m.Valid() && k in m.spaces && Loadable(m.Snap(), k, phs)
    modifies m`mem, m`tables, m.pmm, m.pmm.bitmap
    ensures m.Valid() && Elsewhere(old(m.Snap()), m.Snap(), old(m.spaces)[k].pml4, phs)
    ensures ok ==> |firsts| == |phs|
    ensures ok ==> LoadedUpTo(old(m.Snap()), m.Snap(), old(m.spaces)[k].pml4, phs, file, firsts, |phs|)
    ensures ok ==> phs != [] && forall i :: 0 <= i < |phs| && phs[i].load ==> !Unloadable(file, phs[i])
    ensures !ok ==> phs == [] || StoppedAt(old(m.Snap()), m.Snap(), old(m.spaces)[k].pml4, file, phs, firsts,
                                           |firsts|, m.pmm.freePages)
    ensures m.pmm.freePages >= old(m.pmm.freePages) - 4 * SumPages(phs)
  {
    hide Inv, Loadable, LoadedUpTo, Elsewhere, OnlyRange, Filling, Pmm.UsedIn, Flags, Pages, NoRun, Unloadable,
         SumPages, StoppedAt;
    ghost var s0, root := m.Snap(), m.spaces[k].pml4;
    firsts := [];
    NothingLoaded(s0, root, phs, file);
    LoadedElsewhere(s0, s0, root, phs, file, [], 0);
    if phs == [] {
      return false, [];
    }
    var i := 0;
    while i < |phs|
      invariant i <= |phs| && |firsts| == i && m.Valid() && m.spaces == s0.spaces
      invariant LoadedUpTo(s0, m.Snap(), root, phs, file, firsts, i)
      invariant forall a :: 0 <= a < i && phs[a].load ==> !Unloadable(file, phs[a])
      invariant m.pmm.freePages >= old(m.pmm.freePages) - 4 * SumPages(phs[..i])
    {
      ghost var s := m.Snap();
      LoadedElsewhere(s0, s, root, phs, file, firsts, i);
      SumStep(phs, i);
      SumMono(phs, i + 1);
      if !phs[i].load {
        SkipHeader(s0, s, root, phs, file, firsts, i);
        firsts := firsts + [0];
      } else {
        StillFits(s0, s, k, phs, i);
        ghost var first;
        ok, first := LoadSegment(m, k, file, phs[i]);
        if !ok {
          LoadStops(s0, s, m.Snap(), k, phs, file, firsts, i, m.pmm.freePages);
          return;
        }
        LoadStep(s0, s, m.Snap(), k, phs, file, firsts, i, first);
        firsts := firsts + [first];
      }
      i := i + 1;
    }
    assert phs[..i] == phs;
    LoadedElsewhere(s0, m.Snap(), root, phs, file, firsts, i);
    return true, firsts;
  }

  lemma LoadStops(s0: State, s: State, s': State, k: nat, phs: seq<Phdr>, file: seq<Byte>, firsts: seq<nat>, i: nat,
                  free: nat)
    requires k in s0.spaces && Loadable(s0, k, phs) && i < |phs| && phs[i].load && |firsts| == i
    requires Inv(s) && Inv(s') && LoadedUpTo(s0, s, s0.spaces[k].pml4, phs, file, firsts, i)
    requires OnlyRange(s, s', s0.spaces[k].pml4, phs[i].va / 4096, Pages(phs[i]))
    requires Unloadable(file, phs[i]) || NoRun(s.used, s.total, Pages(phs[i])) || free == 0
    ensures StoppedAt(s0, s', s0.spaces[k].pml4, file, phs, firsts, i, free)
    ensures Elsewhere(s0, s', s0.spaces[k].pml4, phs)
  {
    hide Inv, OnlyRange, SegmentIn, Pages, NoRun, Unloadable, Elsewhere;
    var root := s0.spaces[k].pml4;
    ElsewhereSame(s0, s, root, phs[..i]);
    Chain(s0, s, s', root, phs, i);
    AllCovered(s0, s', root, phs, i + 1);
    EarlierStay(s0, s, s', k, phs, file, firsts, i);
    OnlyRangeUsed(s, s', root, phs[i].va / 4096, Pages(phs[i]));
    if NoRun(s.used, s.total, Pages(phs[i])) { NoRunLater(s.used, s'.used, s.total, Pages(phs[i])); }
  }

  lemma LoadedElsewhere(s0: State, s: State, root: nat, phs: seq<Phdr>, file: seq<Byte>, firsts: seq<nat>, i: nat)
    requires i <= |phs| && |firsts| == i && LoadedUpTo(s0, s, root, phs, file, firsts, i)
    ensures Elsewhere(s0, s, root, phs[..i]) && Elsewhere(s0, s, root, phs)
  {
    AllCovered(s0, s, root, phs, i);
  }

  /** The flags of a loaded segment's pages: present and user, writable exactly when the header asks for it,
      no-execute exactly when the header is not executable, and nothing else. */
  lemma SegmentFlags(s0: State, s: State, root: nat, ph: Phdr, file: seq<Byte>, first: nat, j: nat, k: nat)
    requires SegmentIn(s0, s, root, ph, file, first) && j < Pages(ph) && (k < 12 || 52 <= k < 64)
    ensures var t := Translate(s.mem, root, ph.va / 4096 + j);
      t.Page? && (Bit(t.entry, k) <==> k == 0 || k == 2 || (k == 1 && ph.writable) || (k == 63 && !ph.exec))
  {
    hide Translate, LeafEntry, Bit, Flags, PageLoaded, FileBytes;
    assert PageIn(s0, s, root, ph, file, first, j);
    OutsideField(k);
    LeafEntryFlags((first + j) * 4096, Flags(ph), k);
    FlagBits(ph, k);
  }

  lemma FlagBits(ph: Phdr, k: nat)
    requires k < 12 || 52 <= k < 64
    ensures Bit(Flags(ph), k) <==> k == 0 || k == 2 || (k == 1 && ph.writable) || (k == 63 && !ph.exec)
  {
    hide Bit;
    ReadExec(k);
    ReadOnly(k);
    WriteExec(k);
    WriteOnly(k);
  }

  lemma ReadExec(k: nat)
    requires k < 12 || 52 <= k < 64
    ensures Bit(5, k) <==> k == 0 || k == 2
  {
    hide Bit, Pow2;
    BitByDiv(5, k);
    Weight(k);
  }

  lemma WriteExec(k: nat)
    requires k < 12 || 52 <= k < 64
    ensures Bit(7, k) <==> k <= 2
  {
    hide Bit, Pow2;
    BitByDiv(7, k);
    Weight(k);
  }

  lemma ReadOnly(k: nat)
    requires k < 12 || 52 <= k < 64
    ensures Bit(0x8000_0000_0000_0005, k) <==> k == 0 || k == 2 || k == 63
  {
    hide Bit, Pow2;
    BitByDiv(0x8000_0000_0000_0005, k);
    Weight(k);
  }

  lemma WriteOnly(k: nat)
    requires k < 12 || 52 <= k < 64
    ensures Bit(0x8000_0000_0000_0007, k) <==> k <= 2 || k == 63
  {
    hide Bit, Pow2;
    BitByDiv(0x8000_0000_0000_0007, k);
    Weight(k);
  }

  /** A byte read through a space's translation. */
  ghost function ReadByte(s: State, root: nat, va: nat): Option<Byte> {
    var t := Translate(s.mem, root, VpnOf(va));
    if t.Page? && LeafFrame(t.entry) in s.mem && |s.mem[LeafFrame(t.entry)]| == 512
    then Some(PageBytes(s.mem[LeafFrame(t.entry)])[va % 4096]) else None
  }

  /** A byte read through the translation is the byte at the address GetPhysicalAddress gives. */
  lemma TranslatedByte(s: State, root: nat, va: nat)
    requires ReadByte(s, root, va).Some?
    ensures ReadByte(s, root, va) == Some(PhysByte(s.mem, CodePhys(s.mem, root, VpnOf(va), va % 4096)))
  {
    hide Translate, CodeWalk, Walk, LeafFrame, PageBytes, PhysOf, VpnOf;
    CodePhysRight(s.mem, root, VpnOf(va), va % 4096);
    SmallPage(s.mem, root, VpnOf(va));
    AddressParts(Translate(s.mem, root, VpnOf(va)), va % 4096);
  }

  lemma SmallPage(mem: Mem, root: nat, vpn: nat)
    requires Translate(mem, root, vpn).Page?
    ensures !Walk(mem, root, vpn, 1).Big?
  {
    hide Walk;
  }

  /** A loaded segment reads as the file's bytes up to p_filesz and as zeros up to p_memsz. */
  lemma SegmentReads(s0: State, s: State, root: nat, ph: Phdr, file: seq<Byte>, first: nat, i: nat)
    requires SegmentIn(s0, s, root, ph, file, first) && i < ph.memsz
    requires ph.va % 4096 == 0 && ph.va + ph.memsz + 8190 <= USER_PAGES * 4096
    requires ph.filesz == 0 || ph.offset + ph.filesz <= |file|
    ensures ReadByte(s, root, ph.va + i) == Some(if i < ph.filesz then file[ph.offset + i] else 0)
  {
    hide Translate, LeafEntry, Flags, PageBytes, LeafFrame, VpnOf, ImagePage, FileBytes;
    var j := i / 4096;
    assert j < Pages(ph);
    assert PageIn(s0, s, root, ph, file, first, j);
    hide Pages;
    EntryFrame(first + j, Flags(ph));
    SameVpnOf(ph.va, i);
    ImageAt(file, ph, i);
  }

  lemma ImageAt(file: seq<Byte>, ph: Phdr, i: nat)
    requires i < ph.memsz && (ph.filesz == 0 || ph.offset + ph.filesz <= |file|)
    ensures ImagePage(FileBytes(file, ph), ph.memsz, i / 4096)[i % 4096]
         == if i < ph.filesz then file[ph.offset + i] else 0
  {
    var d, o := FileBytes(file, ph), i % 4096;
    assert 4096 * (i / 4096) + o == i;
    assert ImagePage(d, ph.memsz, i / 4096)[o] == ImageByte(d, ph.memsz, i);
    assert i < ph.filesz ==> d[i] == file[ph.offset + i];
  }

  lemma SameVpnOf(va: nat, i: nat)
    requires va % 4096 == 0 && va + i < USER_PAGES * 4096
    ensures VpnOf(va + i) == va / 4096 + i / 4096 && (va + i) % 4096 == i % 4096
  {
    assert (va + i) / 4096 == va / 4096 + i / 4096;
  }
}
