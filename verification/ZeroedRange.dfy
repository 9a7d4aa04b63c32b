/** Mapping a range of fresh, zeroed pages into a space. */
module ZeroedRange {
  import opened Common
  import opened Bits
  import opened Pte
  import opened PageTables
  import opened Spaces
  import opened Vmm
  import opened Runs
  import opened Fork
  import Pmm

  /** The first page number above the user half. */
  const USER_PAGES: nat := 0x8_0000_0000

  /** A run of fresh frames as seen from the state before: taken since, and no table. */
  ghost predicate FreshData(s0: State, s: State, f: nat) {
    f !in s0.used && f in s.used && !s.Owned(f) && f in s.mem && |s.mem[f]| == 512 && 0 < f < FRAME_LIMIT
  }

  /** `n` consecutive fresh frames from `first`, the first `done` of them zeroed. */
  ghost predicate RunHeld(s0: State, s: State, first: nat, n: nat, done: nat) {
    forall f :: first <= f < first + n ==> FreshData(s0, s, f) && (f < first + done ==> s.mem[f] == ZeroFrame())
  }

  /** What the range is to translate to in space `root`, the rest being as before. */
  ghost function RangeTranslate(s0: State, root: nat, vpn: nat, done: nat, first: nat, flags: nat, r: nat, v: nat)
    : Mapping
  {
    if r == root && vpn <= v < vpn + done && Translate(s0.mem, root, v) == Unmapped
    then Page(LeafEntry((first + v - vpn) * 4096, flags))
    else Translate(s0.mem, r, v)
  }

  ghost predicate RangeMapped(s0: State, s: State, root: nat, vpn: nat, done: nat, first: nat, flags: nat) {
    forall r, v: nat :: r in s0.Roots() && v < VPN_LIMIT ==>
      Translate(s.mem, r, v) == RangeTranslate(s0, root, vpn, done, first, flags, r, v)
  }

  /** The state after `done` pages: the range maps consecutive fresh zeroed frames, all other
      translations of all spaces and all allocated data frames are as before. */
  ghost predicate Ranged(s0: State, s: State, root: nat, vpn: nat, n: nat, done: nat, first: nat, flags: nat) {
    && s.spaces == s0.spaces && s.total == s0.total && s.kernel == s0.kernel && done <= n
    && RangeMapped(s0, s, root, vpn, done, first, flags)
    && RunHeld(s0, s, first, n, done)
    && DataKept(s0, s)
  }

  // ---- Taking the frames ----

  lemma TakeRange(s0: State, first: nat, n: nat, s: State, root: nat, vpn: nat, flags: nat)
    requires Inv(s0) && Pmm.FreeRun(s0.used, s0.total, first, n) && 0 < first
    requires s == s0.(used := s0.used + Pmm.Range(first, n))
    ensures Inv(s) && Ranged(s0, s, root, vpn, n, 0, first, flags)
  {
    hide TreeInv, Translate, SpacesDistinct, FramesWellFormed, RunHeld, DataKept, Pmm.FreeRun, Pmm.Range;
    TakeFrames(s0, first, n, s);
    TakeHeld(s0, first, n, s);
    TakeSpaces(s0, s);
  }

  lemma TakeSpaces(s0: State, s: State)
    requires Inv(s0) && s == s0.(used := s.used)
    ensures SpacesDistinct(s) && s.Roots() == s0.Roots()
  {
    hide TreeInv, FramesWellFormed;
    assert s.Roots() == s0.Roots();
  }

  lemma TakeFrames(s0: State, first: nat, n: nat, s: State)
    requires Inv(s0) && Pmm.FreeRun(s0.used, s0.total, first, n)
    requires s == s0.(used := s0.used + Pmm.Range(first, n))
    ensures FramesWellFormed(s)
  {
    hide TreeInv, SpacesDistinct, Pmm.Range;
    assert s.Roots() == s0.Roots();
    forall f: nat | s.Owned(f) ensures f in s.used && f != 0 { assert s0.Owned(f); }
  }

  lemma TakeHeld(s0: State, first: nat, n: nat, s: State)
    requires Inv(s0) && Pmm.FreeRun(s0.used, s0.total, first, n) && 0 < first
    requires s == s0.(used := s0.used + Pmm.Range(first, n))
    ensures RunHeld(s0, s, first, n, 0) && DataKept(s0, s)
  {
    hide TreeInv, SpacesDistinct, Pmm.Range;
    assert s.Roots() == s0.Roots();
    forall f | first <= f < first + n ensures FreshData(s0, s, f) { assert s.Owned(f) ==> s0.Owned(f); }
    forall f: nat | f in s0.used && !s0.Owned(f) ensures f in s.mem && f in s0.mem && !s.Owned(f) {
      assert f < s0.total;
    }
  }

  // ---- One page ----

  /** A mapping in a user half is seen by its own space alone. */
  lemma OnlyHere(s: State, s': State, k: nat, vpn: nat, e: nat, r: nat, v: nat)
    requires Inv(s) && Inv(s') && Grew(s, s') && k in s.spaces && UserHalf(vpn) && vpn < VPN_LIMIT
    requires MapEffect(s, s', s.spaces[k].pml4, vpn, e) && r in s.Roots() && v < VPN_LIMIT
    ensures var root := s.spaces[k].pml4;
      Translate(s'.mem, r, v) ==
      if r == root && v == vpn && Translate(s.mem, root, vpn) == Unmapped then Page(e) else Translate(s.mem, r, v)
  {
    hide Inv, Translate, Walk, UserHalf, WalksKept;
    var root := s.spaces[k].pml4;
    assert root in s.Roots() && s'.Roots() == s.Roots();
    if v == vpn && Translate(s.mem, root, vpn) == Unmapped {
      assert SharesTop(s', root, root, vpn);
      assert Translate(s'.mem, root, vpn) == Page(e);
      MappedWalk(s', root, vpn);
      if r != root { UserUnshared(s', root, r, vpn); }
    }
  }

  /** Mapping page `done` and zeroing its frame. */
  lemma RangeStep(s0: State, s: State, s1: State, s2: State, k: nat, vpn: nat, n: nat, done: nat, first: nat,
                  flags: nat)
    requires k in s0.spaces && Inv(s0) && Inv(s) && Inv(s1) && done < n
    requires Ranged(s0, s, s0.spaces[k].pml4, vpn, n, done, first, flags)
    requires Grew(s, s1) && vpn + done < USER_PAGES
    requires MapEffect(s, s1, s0.spaces[k].pml4, vpn + done, LeafEntry((first + done) * 4096, flags))
    requires s2 == s1.(mem := s1.mem[first + done := ZeroFrame()])
    ensures Inv(s2) && Ranged(s0, s2, s0.spaces[k].pml4, vpn, n, done + 1, first, flags)
  {
    hide Inv, RangeMapped, RunHeld, DataKept, Grew, MapEffect;
    GrewRoots(s, s1);
    StepFrames(s0, s, s1, s2, n, done, first);
    ZeroKeepsInv(s1, s2, first + done);
    StepTranslations(s0, s, s1, s2, k, vpn, done, first, flags);
  }

  lemma StepFrames(s0: State, s: State, s1: State, s2: State, n: nat, done: nat, first: nat)
    requires Inv(s) && Inv(s1) && Grew(s, s1) && done < n && RunHeld(s0, s, first, n, done) && DataKept(s0, s)
    requires s2 == s1.(mem := s1.mem[first + done := ZeroFrame()])
    ensures RunHeld(s0, s2, first, n, done + 1) && DataKept(s0, s2) && !s1.Owned(first + done)
    ensures first + done in s1.mem && |s1.mem[first + done]| == 512
  {
    hide Inv, Grew;
    forall f | first <= f < first + n ensures FreshData(s0, s1, f) && f in s.mem && s1.mem[f] == s.mem[f] {
      assert FreshData(s0, s, f);
      DataStays(s, s1, f);
    }
    assert FreshData(s0, s1, first + done);
    assert s1.used >= s.used by { GrewUsed(s, s1); }
    forall f | first <= f < first + n
      ensures FreshData(s0, s2, f) && (f < first + done + 1 ==> s2.mem[f] == ZeroFrame())
    {
      assert FreshData(s0, s1, f);
    }
    forall f: nat | f in s0.used && !s0.Owned(f)
      ensures f in s2.mem && f in s0.mem && s2.mem[f] == s0.mem[f] && !s2.Owned(f)
    {
      DataStays(s, s1, f);
      assert f != first + done by { assert FreshData(s0, s1, first + done); }
    }
  }

  lemma GrewUsed(s: State, s': State)
    requires Grew(s, s')
    ensures s.used <= s'.used
  {
  }

  lemma ZeroKeepsInv(s1: State, s2: State, f: nat)
    requires Inv(s1) && !s1.Owned(f) && f in s1.mem && s2 == s1.(mem := s1.mem[f := ZeroFrame()])
    ensures Inv(s2)
  {
    WriteKeepsInv(s1, s2, f, ZeroFrame());
  }

  lemma WriteKeepsInv(s1: State, s2: State, f: nat, words: seq<nat>)
    requires Inv(s1) && !s1.Owned(f) && |words| == 512 && s2 == s1.(mem := s1.mem[f := words])
    ensures Inv(s2)
  {
    hide Translate, Walk, RootLink, ChildLink, ParentLink;
    FillTree(s1, f, words);
    assert s2.Roots() == s1.Roots();
    assert forall g: nat :: s2.Owned(g) <==> s1.Owned(g);
  }

  lemma StepTranslations(s0: State, s: State, s1: State, s2: State, k: nat, vpn: nat, done: nat, first: nat, flags: nat)
    requires k in s0.spaces && Inv(s) && Inv(s1) && Inv(s2) && s.spaces == s0.spaces && Grew(s, s1)
    requires RangeMapped(s0, s, s0.spaces[k].pml4, vpn, done, first, flags) && vpn + done < USER_PAGES
    requires MapEffect(s, s1, s0.spaces[k].pml4, vpn + done, LeafEntry((first + done) * 4096, flags))
    requires !s1.Owned(first + done) && s2 == s1.(mem := s1.mem[first + done := ZeroFrame()])
    ensures RangeMapped(s0, s2, s0.spaces[k].pml4, vpn, done + 1, first, flags)
  {
    hide Inv, Translate, Grew, MapEffect, LeafEntry, UserHalf;
    var root := s0.spaces[k].pml4;
    GrewRoots(s, s1);
    InUserHalf(vpn + done);
    forall r, v: nat | r in s0.Roots() && v < VPN_LIMIT
      ensures Translate(s2.mem, r, v) == RangeTranslate(s0, root, vpn, done + 1, first, flags, r, v)
    {
      assert Translate(s.mem, r, v) == RangeTranslate(s0, root, vpn, done, first, flags, r, v);
      OnlyHere(s, s1, k, vpn + done, LeafEntry((first + done) * 4096, flags), r, v);
      WriteTranslate(s1, s2, first + done, ZeroFrame(), r, v);
    }
  }

  lemma InUserHalf(vpn: nat)
    requires vpn < USER_PAGES
    ensures UserHalf(vpn) && vpn < VPN_LIMIT && VpnOf(vpn * 4096) == vpn
  {
  }

  /** No `n` consecutive pages are free. */
  ghost predicate NoRun(used: set<nat>, total: nat, n: nat) {
    forall start: nat :: !Pmm.FreeRun(used, total, start, n)
  }

  /** VirtMapRangeZeroed. On success the whole range maps `pages` consecutive fresh zeroed frames; when
      a mapping fails the pages before it stay mapped. Nothing else changes in either case. It fails only
      for an empty or unaligned range, without a free run of that length, or when the last free page is
      gone and the table for the next page is missing; four free pages a page are always enough, and it
      never takes more. The whole run of `taken` frames stays allocated, also those left unmapped. */
  method VirtMapRangeZeroed(m: Manager, k: nat, va: nat, len: nat, flags: nat)
    returns (ok: bool, ghost first: nat, ghost taken: nat, ghost done: nat)
    requires m.Valid() && k in m.spaces && va + len + 4095 <= USER_PAGES * 4096
    modifies m`mem, m`tables, m.pmm, m.pmm.bitmap
    ensures m.Valid() && m.spaces == old(m.spaces)
    ensures Ranged(old(m.Snap()), m.Snap(), m.spaces[k].pml4, VpnOf(va), taken, done, first, flags)
    ensures taken == if NoRun(old(m.pmm.Used()), m.pmm.totalPages, (len + 4095) / 4096) then 0 else (len + 4095) / 4096
    ensures m.pmm.freePages >= old(m.pmm.freePages) - 4 * ((len + 4095) / 4096)
    ensures ok ==> done == (len + 4095) / 4096 > 0 && va % 4096 == 0
    ensures done <= (len + 4095) / 4096 && (va % 4096 != 0 ==> done == 0)
    ensures ok ==> !NoRun(old(m.pmm.Used()), m.pmm.totalPages, (len + 4095) / 4096)
    ensures !ok ==> || len == 0 || va % 4096 != 0 || NoRun(old(m.pmm.Used()), m.pmm.totalPages, (len + 4095) / 4096)
                    || (m.pmm.freePages == 0 && Missing(m.mem, m.spaces[k].pml4, VpnOf(va) + done) > 0)
    ensures (&& len > 0 && va % 4096 == 0 && !NoRun(old(m.pmm.Used()), m.pmm.totalPages, (len + 4095) / 4096)
             && old(m.pmm.freePages) >= 4 * ((len + 4095) / 4096)) ==> ok
  {
    hide Inv, Ranged, Grew, LeafEntry, Missing, VpnOf, Pmm.UsedIn, Pmm.SetRange, Pmm.FreeRun;
    ghost var s0 := m.Snap();
    var pages := (len + 4095) / 4096;
    NothingRanged(s0, m.spaces[k].pml4, VpnOf(va), flags);
    var phys := m.pmm.AllocPages(pages);
    if phys == 0 {
      SameUsed(old(m.pmm.bitmap[..]), m.pmm.bitmap[..], m.pmm.totalPages);
      return false, 0, 0, 0;
    }
    first := phys / 4096;
    TakeRange(s0, first, pages, m.Snap(), m.spaces[k].pml4, VpnOf(va), flags);
    var i := 0;
    while i < pages
      invariant i <= pages && m.Valid() && m.spaces == s0.spaces && (i > 0 ==> va % 4096 == 0)
      invariant Ranged(s0, m.Snap(), s0.spaces[k].pml4, VpnOf(va), pages, i, first, flags)
      invariant m.pmm.freePages >= old(m.pmm.freePages) - pages - 3 * i
    {
      ok := MapZeroed(m, k, va, len, phys, flags, i, s0);
      if !ok {
        return false, first, pages, i;
      }
      i := i + 1;
    }
    return true, first, pages, pages;
  }

  /** One turn of the loop: map the next page, then clear its frame. */
  method MapZeroed(m: Manager, k: nat, va: nat, len: nat, phys: nat, flags: nat, i: nat, ghost s0: State)
    returns (ok: bool)
    requires m.Valid() && k in m.spaces && va + len + 4095 <= USER_PAGES * 4096 && i < (len + 4095) / 4096
    requires Inv(s0) && phys % 4096 == 0 && m.spaces == s0.spaces
    requires Ranged(s0, m.Snap(), s0.spaces[k].pml4, VpnOf(va), (len + 4095) / 4096, i, phys / 4096, flags)
    modifies m`mem, m`tables, m.pmm, m.pmm.bitmap
    ensures m.Valid() && (ok ==> va % 4096 == 0)
    ensures ok ==> Ranged(s0, m.Snap(), s0.spaces[k].pml4, VpnOf(va), (len + 4095) / 4096, i + 1, phys / 4096, flags)
    ensures !ok ==> Ranged(s0, m.Snap(), s0.spaces[k].pml4, VpnOf(va), (len + 4095) / 4096, i, phys / 4096, flags)
    ensures !ok ==> va % 4096 != 0 || (m.pmm.freePages == 0 && Missing(m.mem, s0.spaces[k].pml4, VpnOf(va) + i) > 0)
    ensures m.pmm.freePages >= old(m.pmm.freePages) - 3
    ensures va % 4096 == 0 && old(m.pmm.freePages) >= 3 ==> ok
  {
    hide Inv, Ranged, Grew, MapEffect, SameTranslations, LeafEntry, Missing, Pmm.UsedIn, VpnOf;
    ghost var s, pages, first := m.Snap(), (len + 4095) / 4096, phys / 4096;
    PageOf(va, len, i);
    Pmm.PageStep(phys, i);
    assert (first + i) * 4096 == phys + i * 4096;
    FrameOf(s0, s, s0.spaces[k].pml4, VpnOf(va), pages, i, first, flags);
    InUserHalf(VpnOf(va) + i);
    UserWalkable(s, k, VpnOf(va) + i);
    AtMostThree(m.mem, s0.spaces[k].pml4, VpnOf(va) + i);
    var r := m.MapPage(Some(k), va + i * 4096, phys + i * 4096, flags);
    ghost var s1 := m.Snap();
    if r != 1 {
      Failed(s0, s, s1, s0.spaces[k].pml4, VpnOf(va), pages, i, first, flags);
      return false;
    }
    FrameStays(s0, s, s1, s0.spaces[k].pml4, VpnOf(va), pages, i, first, flags);
    m.ZeroTable((phys + i * 4096) / 4096);
    RangeStep(s0, s, s1, m.Snap(), k, VpnOf(va), pages, i, first, flags);
    return true;
  }

  lemma SameUsed(a: seq<Word>, b: seq<Word>, total: nat)
    requires a == b && total <= 64 * |a|
    ensures Pmm.UsedIn(a, total) == Pmm.UsedIn(b, total)
  {
  }

  lemma NothingRanged(s0: State, root: nat, vpn: nat, flags: nat)
    requires Inv(s0)
    ensures Ranged(s0, s0, root, vpn, 0, 0, 0, flags)
  {
    hide TreeInv, Translate, SpacesDistinct;
    forall f: nat | f in s0.used ensures f in s0.mem { assert f < s0.total; }
  }

  lemma PageOf(va: nat, len: nat, i: nat)
    requires va + len + 4095 <= USER_PAGES * 4096 && i < (len + 4095) / 4096
    ensures VpnOf(va + i * 4096) == VpnOf(va) + i < USER_PAGES
    ensures (va + i * 4096) % 4096 == va % 4096
  {
    assert i * 4096 < len + 4095;
    assert (va + i * 4096) / 4096 == va / 4096 + i;
  }

  lemma FrameOf(s0: State, s: State, root: nat, vpn: nat, n: nat, i: nat, first: nat, flags: nat)
    requires Ranged(s0, s, root, vpn, n, i, first, flags) && i < n
    ensures (first + i) * 4096 <= ADDR_MASK && first + i in s.mem
  {
    hide RangeMapped, DataKept;
    assert FreshData(s0, s, first + i);
  }

  /** A mapping that failed: the pages before it stay. */
  lemma Failed(s0: State, s: State, s1: State, root: nat, vpn: nat, n: nat, i: nat, first: nat, flags: nat)
    requires Inv(s) && Inv(s1) && Grew(s, s1) && SameTranslations(s.mem, s1.mem, s1.Roots())
    requires Ranged(s0, s, root, vpn, n, i, first, flags)
    ensures Ranged(s0, s1, root, vpn, n, i, first, flags)
  {
    hide Inv, Grew, Translate;
    GrewRoots(s, s1);
    GrewUsed(s, s1);
    forall r, v: nat | r in s0.Roots() && v < VPN_LIMIT
      ensures Translate(s1.mem, r, v) == RangeTranslate(s0, root, vpn, i, first, flags, r, v)
    {
      assert r in s1.Roots();
      assert Translate(s1.mem, r, v) == Translate(s.mem, r, v);
    }
    forall f | first <= f < first + n ensures FreshData(s0, s1, f) && f in s.mem && s1.mem[f] == s.mem[f] {
      assert FreshData(s0, s, f);
      DataStays(s, s1, f);
    }
    forall f: nat | f in s0.used && !s0.Owned(f)
      ensures f in s1.mem && f in s0.mem && s1.mem[f] == s0.mem[f] && !s1.Owned(f)
    {
      DataStays(s, s1, f);
    }
  }

  lemma FrameStays(s0: State, s: State, s1: State, root: nat, vpn: nat, n: nat, i: nat, first: nat, flags: nat)
    requires Inv(s) && Grew(s, s1) && Ranged(s0, s, root, vpn, n, i, first, flags) && i < n
    ensures first + i in s1.mem && |s1.mem[first + i]| == 512
  {
    hide Inv, Grew, RangeMapped, DataKept;
    assert FreshData(s0, s, first + i);
    DataStays(s, s1, first + i);
  }
}
