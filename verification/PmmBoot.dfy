/** Bringing up the page allocator from the boot loader's memory map. */
module PmmBoot {
  import opened Bits
  import opened Pmm

  const MAX_REGIONS: nat := 64

  datatype Kind = Usable | Kernel | Reserved

  /** The types of the boot loader's map that the kernel tells apart. */
  datatype MapType = MapUsable | MapKernelAndModules | MapOther

  datatype Entry = Entry(base: nat, length: nat, kind: MapType)

  datatype Region = Region(base: nat, length: nat, kind: Kind)

  function Classify(e: Entry): Region {
    var kind := if e.kind.MapUsable? then Usable else if e.kind.MapKernelAndModules? then Kernel else Reserved;
    Region(e.base, e.length, kind)
  }

  /** The pages a region frees: whole pages counted from the page its base lies in. */
  ghost function RegionPages(r: Region): set<nat> { Range(r.base / 4096, r.length / 4096) }

  ghost function UsablePages(rs: seq<Region>): set<nat> {
    if rs == [] then {}
    else UsablePages(rs[..|rs| - 1]) + (if rs[|rs| - 1].kind == Usable then RegionPages(rs[|rs| - 1]) else {})
  }

  ghost predicate Frees(r: Region, p: nat) { r.kind == Usable && p in RegionPages(r) }

  lemma {:induction false} InUsable(rs: seq<Region>, p: nat)
    ensures p in UsablePages(rs) <==> exists i :: 0 <= i < |rs| && Frees(rs[i], p)
  {
    hide RegionPages;
    if rs != [] {
      var n := |rs| - 1;
      InUsable(rs[..n], p);
      assert p in UsablePages(rs) <==> p in UsablePages(rs[..n]) || Frees(rs[n], p);
      assert forall i :: 0 <= i < n ==> rs[..n][i] == rs[i];
    }
  }

  /** No address computation of the boot code wraps. */
  ghost predicate NoWrap(entries: seq<Entry>) {
    forall i :: 0 <= i < |entries| ==> entries[i].base + entries[i].length + 4095 < WORD_LIMIT
  }

  /** The number of pages up to the highest end of a region. */
  ghost predicate Covers(rs: seq<Region>, total: nat) {
    && (forall i :: 0 <= i < |rs| ==> rs[i].base + rs[i].length <= total * 4096)
    && (total > 0 ==> exists i :: 0 <= i < |rs| && rs[i].base + rs[i].length > (total - 1) * 4096)
  }

  /** The end of a region, in 64 bits. */
  function EndOf(r: Region): nat { (r.base + r.length) % WORD_LIMIT }

  ghost predicate Highest(rs: seq<Region>, h: nat) {
    && (forall i :: 0 <= i < |rs| ==> EndOf(rs[i]) <= h)
    && (h > 0 ==> exists i :: 0 <= i < |rs| && EndOf(rs[i]) == h)
  }

  /** ParseMemoryMap: the first 64 entries, classified, and the page count up to the highest end, all in
      64-bit arithmetic. Where nothing wraps that is the least page count that covers them. */
  method ParseMemoryMap(entries: seq<Entry>) returns (regions: seq<Region>, total: nat, ghost highest: nat)
    ensures |regions| == if |entries| <= MAX_REGIONS then |entries| else MAX_REGIONS
    ensures forall i :: 0 <= i < |regions| ==> regions[i] == Classify(entries[i])
    ensures Highest(regions, highest) && total == (highest + 4095) % WORD_LIMIT / 4096
    ensures NoWrap(entries) ==> Covers(regions, total) && total * 4096 < WORD_LIMIT
  {
    regions := [];
    var top: nat, i := 0, 0;
    while i < |entries|
      invariant i <= |entries| && |regions| == i <= MAX_REGIONS && Highest(regions, top)
      invariant forall j :: 0 <= j < i ==> regions[j] == Classify(entries[j])
    {
      if |regions| >= MAX_REGIONS {
        break;
      }
      var r := Classify(entries[i]);
      HighestGrows(regions, top, r);
      regions := regions + [r];
      if EndOf(r) > top {
        top := EndOf(r);
      }
      i := i + 1;
    }
    total := (top + 4095) % WORD_LIMIT / 4096;
    highest := top;
    if NoWrap(entries) { CoversWithoutWrap(entries, regions, top); }
  }

  lemma HighestGrows(rs: seq<Region>, h: nat, r: Region)
    requires Highest(rs, h)
    ensures Highest(rs + [r], if EndOf(r) > h then EndOf(r) else h)
  {
    var rs', n := rs + [r], |rs|;
    assert rs'[n] == r && forall i :: 0 <= i < n ==> rs'[i] == rs[i];
  }

  lemma CoversWithoutWrap(entries: seq<Entry>, rs: seq<Region>, h: nat)
    requires NoWrap(entries) && Highest(rs, h) && |rs| <= |entries|
    requires forall i :: 0 <= i < |rs| ==> rs[i] == Classify(entries[i])
    ensures var total := (h + 4095) % WORD_LIMIT / 4096; Covers(rs, total) && total * 4096 < WORD_LIMIT
  {
    forall i | 0 <= i < |rs| ensures EndOf(rs[i]) == rs[i].base + rs[i].length && EndOf(rs[i]) + 4095 < WORD_LIMIT {
      SmallAddress(entries[i].base + entries[i].length);
    }
    SmallAddress(h + 4095);
  }

  function BitmapBytes(total: nat): nat { (total + 63) / 64 * 8 }

  /** The bitmap's pages when it lies at `phys`. */
  function BitmapPageCount(total: nat): nat { (BitmapBytes(total) + 4095) / 4096 }

  ghost function BitmapPages(total: nat, phys: nat): set<nat> { Range(phys / 4096, BitmapPageCount(total)) }

  ghost predicate Roomy(r: Region, total: nat) { r.kind == Usable && r.length >= BitmapBytes(total) }

  ghost predicate FirstRoomy(rs: seq<Region>, i: nat, total: nat)
    requires i < |rs|
  {
    Roomy(rs[i], total) && forall j :: 0 <= j < i ==> !Roomy(rs[j], total)
  }

  /** The search of InitializeBitmap: the base of the first usable region with room, 0 when there is none. */
  method FindBitmapPlace(regions: seq<Region>, total: nat) returns (phys: nat, ghost at: nat)
    ensures phys != 0 ==> at < |regions| && FirstRoomy(regions, at, total) && regions[at].base == phys
    ensures phys == 0 ==> forall i :: 0 <= i < |regions| && FirstRoomy(regions, i, total) ==> regions[i].base == 0
  {
    var i := 0;
    phys, at := 0, 0;
    while i < |regions|
      invariant i <= |regions| && phys == 0
      invariant forall j :: 0 <= j < i ==> !Roomy(regions[j], total)
    {
      if regions[i].kind == Usable && regions[i].length >= BitmapBytes(total) {
        assert Roomy(regions[i], total);
        return regions[i].base, i;
      }
      assert !Roomy(regions[i], total);
      i := i + 1;
    }
  }

  /** Frees the pages of one region that exist. */
  method ReleaseRegion(a: Allocator, start: nat, count: nat)
    requires a.Shape()
    modifies a.bitmap
    ensures a.Used() == old(a.Used()) - Range(start, count)
  {
    hide UsedIn, Clear, Range;
    var page := start;
    FirstOut(a.Used(), start);
    while page < start + count
      invariant start <= page <= start + count
      invariant a.Used() == old(a.Used()) - Range(start, page - start)
    {
      NextOut(old(a.Used()), start, page - start);
      if page < a.totalPages {
        a.ClearBitmapBit(page);
      }
      page := page + 1;
    }
  }

  lemma FirstOut(u: set<nat>, start: nat)
    ensures u - Range(start, 0) == u
  {
  }

  lemma NextOut(u: set<nat>, start: nat, n: nat)
    ensures u - Range(start, n) - {start + n} == u - Range(start, n + 1)
    ensures start + n !in u ==> u - Range(start, n) == u - Range(start, n + 1)
  {
    hide Range;
  }

  /** MarkMemoryRegions: everything used, the usable regions freed, the bitmap protected. */
  method MarkMemoryRegions(a: Allocator, regions: seq<Region>, phys: nat)
    requires a.Shape() && phys / 4096 + BitmapPageCount(a.totalPages) <= a.totalPages
    modifies a.bitmap
    ensures a.Used() == Range(0, a.totalPages) - UsablePages(regions) + BitmapPages(a.totalPages, phys)
  {
    hide UsedIn, SetRange, BitmapPageCount, Range, UsablePages;
    a.MarkRun(0, a.totalPages);
    assert a.Used() == Range(0, a.totalPages) by { AllUsed(old(a.Used()), a.totalPages); }
    NoRegions();
    var i := 0;
    while i < |regions|
      invariant i <= |regions|
      invariant a.Used() == Range(0, a.totalPages) - UsablePages(regions[..i])
    {
      NextRegion(Range(0, a.totalPages), regions, i);
      if regions[i].kind == Usable {
        ReleaseRegion(a, regions[i].base / 4096, regions[i].length / 4096);
      }
      i := i + 1;
    }
    assert regions[..i] == regions;
    a.MarkRun(phys / 4096, BitmapPageCount(a.totalPages));
  }

  lemma AllUsed(u: set<nat>, total: nat)
    requires forall p :: p in u ==> p < total
    ensures u + Range(0, total) == Range(0, total)
  {
  }

  lemma NoRegions()
    ensures UsablePages([]) == {}
  {
  }

  lemma NextRegion(u: set<nat>, rs: seq<Region>, i: nat)
    requires i < |rs|
    ensures u - UsablePages(rs[..i + 1]) ==
      if rs[i].kind == Usable then u - UsablePages(rs[..i]) - Range(rs[i].base / 4096, rs[i].length / 4096)
      else u - UsablePages(rs[..i])
  {
    hide Range;
    assert rs[..i + 1][..i] == rs[..i];
  }

  /** The counting loop at the end of InitializePmm. */
  method CountPages(a: Allocator)
    requires a.Shape()
    modifies a`usedPages, a`freePages
    ensures a.usedPages == |a.Used()| && a.usedPages + a.freePages == a.totalPages
  {
    a.usedPages, a.freePages := 0, 0;
    var i := 0;
    while i < a.totalPages
      invariant i <= a.totalPages && a.usedPages + a.freePages == i
      invariant a.usedPages == |UsedIn(a.bitmap[..], i)|
    {
      UsedGrows(a.bitmap[..], i);
      var taken := a.TestBitmapBit(i);
      if taken {
        a.usedPages := a.usedPages + 1;
      } else {
        a.freePages := a.freePages + 1;
      }
      i := i + 1;
    }
  }

  lemma UsedGrows(words: seq<Word>, i: nat)
    requires i < 64 * |words|
    ensures |UsedIn(words, i + 1)| == |UsedIn(words, i)| + if Test(words, i) then 1 else 0
  {
    hide Test;
    assert UsedIn(words, i + 1) == UsedIn(words, i) + if Test(words, i) then {i} else {};
  }

  /** What the allocator holds after boot. */
  ghost predicate Booted(a: Allocator, regions: seq<Region>, phys: nat)
    reads a, a.bitmap
  {
    && a.Shape() && a.hint == 0 && a.usedPages == |a.Used()| && a.usedPages + a.freePages == a.totalPages
    && a.Used() == Range(0, a.totalPages) - UsablePages(regions) + BitmapPages(a.totalPages, phys)
  }

  /** InitializePmm: null when there is no region or no place for the bitmap. The allocator's invariant
      holds exactly when page 0 stays used: when no usable region offers it, or the bitmap covers it. */
  method InitializePmm(entries: seq<Entry>)
    returns (a: Allocator?, ghost regions: seq<Region>, ghost total: nat, ghost at: nat)
    requires NoWrap(entries)
    ensures |regions| == if |entries| <= MAX_REGIONS then |entries| else MAX_REGIONS
    ensures forall i :: 0 <= i < |regions| ==> regions[i] == Classify(entries[i])
    ensures Covers(regions, total)
    ensures a != null ==> at < |regions| && FirstRoomy(regions, at, total) && regions[at].base > 0
    ensures a != null ==> a.totalPages == total && Booted(a, regions, regions[at].base) && fresh(a) && fresh(a.bitmap)
    ensures a != null ==> (a.Valid() <==> regions[at].base < 4096 || !OffersZero(regions))
    ensures a == null ==> forall i :: 0 <= i < |regions| && FirstRoomy(regions, i, total) ==> regions[i].base == 0
    ensures a != null && AlignedUsable(entries) ==>
      forall p: nat :: p < a.totalPages ==>
        (p !in a.Used() <==> FreeByMap(entries, regions[at].base, a.bitmap.Length, p))
  {
    hide UsedIn, UsablePages, BitmapPages, RegionPages, FreeByMap, AlignedUsable;
    var rs, pages, _ := ParseMemoryMap(entries);
    regions, total, at := rs, pages, 0;
    if rs == [] {
      return null, regions, total, at;
    }
    var phys;
    phys, at := FindBitmapPlace(rs, pages);
    if phys == 0 {
      return null, regions, total, at;
    }
    BitmapInside(rs, pages, at);
    a := new Allocator.Empty(pages);
    MarkMemoryRegions(a, rs, phys);
    CountPages(a);
    ZeroUsedIff(rs, pages, phys);
    if AlignedUsable(entries) {
      forall p: nat | p < pages ensures p !in a.Used() <==> FreeByMap(entries, phys, a.bitmap.Length, p) {
        FreeOverEntries(entries, rs, pages, phys, at, p);
      }
    }
  }

  /** Usable entries start on page boundaries. */
  ghost predicate AlignedUsable(entries: seq<Entry>) {
    forall i :: 0 <= i < |entries| && entries[i].kind == MapUsable ==> entries[i].base % 4096 == 0
  }

  /** What the boot loader's map says of a page, given a bitmap of `words` 64-bit words at `phys`: it lies
      wholly in one of the first 64 entries that is usable, and holds no byte of the bitmap. */
  ghost predicate FreeByMap(entries: seq<Entry>, phys: nat, words: nat, p: nat) {
    && (exists i :: 0 <= i < |entries| && i < 64 && entries[i].kind == MapUsable
                    && entries[i].base <= p * 4096 && (p + 1) * 4096 <= entries[i].base + entries[i].length)
    && !(p * 4096 < phys + 8 * words && phys < (p + 1) * 4096)
  }

  lemma FreeOverEntries(entries: seq<Entry>, rs: seq<Region>, total: nat, phys: nat, at: nat, p: nat)
    requires |rs| == if |entries| <= MAX_REGIONS then |entries| else MAX_REGIONS
    requires forall i :: 0 <= i < |rs| ==> rs[i] == Classify(entries[i])
    requires AlignedUsable(entries) && at < |rs| && rs[at].kind == Usable && rs[at].base == phys && p < total
    ensures p !in Range(0, total) - UsablePages(rs) + BitmapPages(total, phys)
      <==> FreeByMap(entries, phys, (total + 63) / 64, p)
  {
    hide UsablePages, BitmapPages;
    FreeAfterBoot(rs, total, phys, p);
    forall i | 0 <= i < |rs|
      ensures rs[i].kind == Usable && WholePage(rs[i], p) <==>
        entries[i].kind == MapUsable && entries[i].base <= p * 4096
        && (p + 1) * 4096 <= entries[i].base + entries[i].length
    {
    }
  }

  lemma BitmapInside(rs: seq<Region>, total: nat, at: nat)
    requires Covers(rs, total) && at < |rs| && Roomy(rs[at], total) && rs[at].base > 0
    ensures total > 0 && rs[at].base / 4096 + BitmapPageCount(total) <= total
  {
    var base, bytes := rs[at].base, BitmapBytes(total);
    assert base + bytes <= total * 4096;
    FloorCeil(base, bytes, total);
  }

  lemma FloorCeil(base: nat, bytes: nat, total: nat)
    requires base + bytes <= total * 4096
    ensures base / 4096 + (bytes + 4095) / 4096 <= total
  {
  }

  /** Some usable region holds page 0. */
  ghost predicate OffersZero(rs: seq<Region>) { exists i :: 0 <= i < |rs| && Frees(rs[i], 0) }

  lemma ZeroUsedIff(rs: seq<Region>, total: nat, phys: nat)
    requires total > 0
    ensures 0 in Range(0, total) - UsablePages(rs) + BitmapPages(total, phys) <==> phys < 4096 || !OffersZero(rs)
  {
    hide RegionPages, UsablePages, Frees;
    InUsable(rs, 0);
    assert BitmapPageCount(total) > 0;
    assert 0 in BitmapPages(total, phys) <==> phys / 4096 == 0;
  }

  // ---- What the free pages are ----

  /** Every byte of the page belongs to the region. */
  predicate WholePage(r: Region, p: nat) { r.base <= p * 4096 && (p + 1) * 4096 <= r.base + r.length }

  /** The boot code frees exactly the whole pages of a region if and only if the region starts on a
      page boundary or is shorter than a page. */
  lemma RegionPagesExact(r: Region)
    ensures (forall p: nat :: p in RegionPages(r) <==> WholePage(r, p)) <==> r.base % 4096 == 0 || r.length < 4096
  {
    if r.base % 4096 == 0 {
      forall p: nat ensures p in RegionPages(r) <==> WholePage(r, p) { AlignedPage(r, p); }
    } else if r.length < 4096 {
      assert r.length / 4096 == 0;
    } else {
      var p := r.base / 4096;
      assert p in RegionPages(r) && !WholePage(r, p);
    }
  }

  lemma AlignedPage(r: Region, p: nat)
    requires r.base % 4096 == 0
    ensures p in RegionPages(r) <==> WholePage(r, p)
  {
    assert r.base == r.base / 4096 * 4096;
  }

  /** The page holds a byte of the bitmap. */
  predicate HoldsBitmap(total: nat, phys: nat, p: nat) {
    p * 4096 < phys + BitmapBytes(total) && phys < (p + 1) * 4096
  }

  /** After boot on page-aligned usable regions, a page is free exactly when it is a whole page of a
      usable region and holds no byte of the bitmap. */
  lemma FreeAfterBoot(rs: seq<Region>, total: nat, phys: nat, p: nat)
    requires forall i :: 0 <= i < |rs| && rs[i].kind == Usable ==> rs[i].base % 4096 == 0
    requires phys % 4096 == 0 && p < total
    ensures p !in Range(0, total) - UsablePages(rs) + BitmapPages(total, phys)
      <==> (exists i :: 0 <= i < |rs| && rs[i].kind == Usable && WholePage(rs[i], p)) && !HoldsBitmap(total, phys, p)
  {
    hide RegionPages, BitmapBytes, UsablePages, WholePage;
    InUsable(rs, p);
    BitmapPagesExact(total, phys, p);
    forall i | 0 <= i < |rs| && rs[i].kind == Usable ensures Frees(rs[i], p) <==> WholePage(rs[i], p) {
      AlignedPage(rs[i], p);
    }
  }

  lemma BitmapPagesExact(total: nat, phys: nat, p: nat)
    requires phys % 4096 == 0 && total > 0
    ensures p in BitmapPages(total, phys) <==> HoldsBitmap(total, phys, p)
  {
    assert phys == phys / 4096 * 4096 && BitmapBytes(total) > 0;
  }
}
