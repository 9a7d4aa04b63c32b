/** The state of the virtual memory manager and what each of its operations keeps. */
module Spaces {
  import opened Pte
  import opened PageTables

  const VPN_LIMIT: nat := 0x10_0000_0000

  /** An address space: the frame of its PML4 and its reference count. */
  datatype Space = Space(pml4: nat, refCount: nat)

  /** `spaces` is keyed by the frame that holds the space structure; `used` is the allocator's
      used set; `tables` records where each page-table frame hangs. */
  datatype State = State(mem: Mem, used: set<nat>, total: nat, spaces: map<nat, Space>, kernel: nat,
                         tables: map<nat, Info>)
  {
    ghost function Roots(): set<nat> {
      set k | k in spaces :: spaces[k].pml4
    }

    /** Frames the memory manager owns: tables, PML4s and space structures. */
    ghost predicate Owned(f: nat) {
      f in tables || f in Roots() || f in spaces
    }
  }

  ghost predicate SpacesDistinct(s: State) {
    && s.kernel in s.spaces
    && (forall k :: k in s.spaces ==> k !in s.tables && k !in s.Roots() && s.spaces[k].refCount > 0)
    && (forall k, k' :: k in s.spaces && k' in s.spaces && s.spaces[k].pml4 == s.spaces[k'].pml4 ==> k == k')
  }

  ghost predicate FramesWellFormed(s: State) {
    && s.total <= FRAME_LIMIT
    && (forall f :: 0 <= f < s.total ==> f in s.mem && |s.mem[f]| == 512)
    && (forall f :: f in s.used ==> f < s.total)
    && (forall f: nat :: s.Owned(f) ==> f in s.used && f != 0)
  }

  ghost predicate Inv(s: State) {
    && TreeInv(s.mem, s.tables, s.Roots())
    && SpacesDistinct(s)
    && FramesWellFormed(s)
  }

  ghost predicate SameTranslations(mem: Mem, mem': Mem, roots: set<nat>) {
    forall r, v: nat :: r in roots ==> Translate(mem', r, v) == Translate(mem, r, v)
  }

  /** Only fresh frames were taken, every old table is still where it was, and no frame outside the
      page-table machinery was written. */
  ghost predicate Grew(s: State, s': State) {
    FramesKept(s, s') && WalksKept(s.mem, s'.mem, s.Roots())
  }

  /** Every table a walk reached is still reached. */
  ghost predicate WalksKept(mem: Mem, mem': Mem, roots: set<nat>) {
    forall r, v: nat, l :: r in roots && 1 <= l <= 4 && Walk(mem, r, v, l).Table? ==>
      Walk(mem', r, v, l) == Walk(mem, r, v, l)
  }

  ghost predicate FramesKept(s: State, s': State) {
    && s'.spaces == s.spaces && s'.kernel == s.kernel && s'.total == s.total
    && s.used <= s'.used
    && (forall t :: t in s.tables ==> t in s'.tables && s'.tables[t] == s.tables[t])
    && (forall t :: t in s'.tables && t !in s.tables ==> t !in s.used && t in s'.used)
    && (forall f :: f in s.mem ==> f in s'.mem)
    && (forall f :: f in s.mem && f !in s.tables && f !in s.Roots() && (f in s.used || f !in s'.used) ==>
          s'.mem[f] == s.mem[f])
  }

  /** No PML4 but that of one space was written. */
  ghost predicate RootsKept(s: State, s': State, root: nat) {
    forall r :: r in s.Roots() && r != root && r in s.mem ==> r in s'.mem && s'.mem[r] == s.mem[r]
  }

  lemma RootsKeptTrans(a: State, b: State, c: State, root: nat)
    requires RootsKept(a, b, root) && RootsKept(b, c, root) && Grew(a, b)
    ensures RootsKept(a, c, root)
  {
    hide WalksKept;
    assert b.Roots() == a.Roots();
  }

  lemma RootsKeptRefl(s: State, root: nat)
    ensures RootsKept(s, s, root)
  {
  }

  lemma GrewTrans(a: State, b: State, c: State)
    requires Grew(a, b) && Grew(b, c)
    ensures Grew(a, c)
  {
    hide Walk;
    FramesKeptTrans(a, b, c);
    WalksKeptTrans(a.mem, b.mem, c.mem, a.Roots());
  }

  lemma FramesKeptTrans(a: State, b: State, c: State)
    requires FramesKept(a, b) && FramesKept(b, c)
    ensures FramesKept(a, c) && c.Roots() == b.Roots() == a.Roots()
  {
  }

  lemma WalksKeptTrans(m0: Mem, m1: Mem, m2: Mem, roots: set<nat>)
    requires WalksKept(m0, m1, roots) && WalksKept(m1, m2, roots)
    ensures WalksKept(m0, m2, roots)
  {
    hide Walk;
    forall r, v: nat, l | r in roots && 1 <= l <= 4 && Walk(m0, r, v, l).Table?
      ensures Walk(m2, r, v, l) == Walk(m0, r, v, l)
    {
      assert Walk(m1, r, v, l) == Walk(m0, r, v, l);
    }
  }

  lemma GrewRefl(s: State)
    ensures Grew(s, s) && SameTranslations(s.mem, s.mem, s.Roots())
  {
  }

  lemma GrewRoots(a: State, b: State)
    requires Grew(a, b)
    ensures b.Roots() == a.Roots() && b.spaces == a.spaces && b.kernel == a.kernel && b.total == a.total
  {
  }

  lemma GrewSameTrans(a: State, b: State, c: State)
    requires Grew(a, b) && SameTranslations(a.mem, b.mem, a.Roots())
    requires Grew(b, c) && SameTranslations(b.mem, c.mem, b.Roots())
    ensures Grew(a, c) && SameTranslations(a.mem, c.mem, a.Roots()) && c.Roots() == b.Roots() == a.Roots()
  {
    hide Translate, Grew;
    GrewTrans(a, b, c);
    assert c.Roots() == b.Roots() == a.Roots() by { GrewRoots(a, b); GrewRoots(b, c); }
    forall r, v: nat | r in a.Roots() ensures Translate(c.mem, r, v) == Translate(a.mem, r, v) {
      assert r in b.Roots();
      assert Translate(b.mem, r, v) == Translate(a.mem, r, v);
    }
  }

  /** Hanging a fresh, zeroed table into an absent entry. */
  lemma InstallStep(s: State, t: nat, i: nat, f: nat, s': State)
    requires Inv(s) && CanInstall(s.mem, s.tables, s.Roots(), t, i, f)
    requires f !in s.used && 0 < f < s.total
    requires s' == s.(mem := Installed(s.mem, t, i, f), used := s.used + {f},
                      tables := s.tables[f := ChildInfo(s.tables, t, i)])
    ensures Inv(s') && Grew(s, s') && SameTranslations(s.mem, s'.mem, s.Roots())
  {
    hide Present, Huge, WalkFrame, TableEntry, LeafMapping, Ix, Walk, Translate, TreeInv, FramesKept, SpacesDistinct,
         FramesWellFormed;
    InstallFrames(s, t, i, f, s');
    InstallKept(s, t, i, f, s');
    InstallInv(s.mem, s.tables, s.Roots(), t, i, f);
    assert s'.Roots() == s.Roots();
    forall r, v: nat, l | r in s.Roots() && 1 <= l <= 4 && Walk(s.mem, r, v, l).Table?
      ensures Walk(s'.mem, r, v, l) == Walk(s.mem, r, v, l)
    {
      InstallWalk(s.mem, s.tables, s.Roots(), t, i, f, r, v, l);
    }
    forall r, v: nat | r in s.Roots() ensures Translate(s'.mem, r, v) == Translate(s.mem, r, v) {
      InstallTranslate(s.mem, s.tables, s.Roots(), t, i, f, r, v);
    }
  }

  lemma InstallFrames(s: State, t: nat, i: nat, f: nat, s': State)
    requires Inv(s) && CanInstall(s.mem, s.tables, s.Roots(), t, i, f)
    requires f !in s.used && 0 < f < s.total
    requires s' == s.(mem := Installed(s.mem, t, i, f), used := s.used + {f},
                      tables := s.tables[f := ChildInfo(s.tables, t, i)])
    ensures SpacesDistinct(s') && FramesWellFormed(s')
  {
    hide TreeInv, Present, TableEntry;
    assert s'.Roots() == s.Roots();
    InstallHere(s, t, i, f);
    assert forall g: nat :: s'.Owned(g) ==> s.Owned(g) || g == f;
  }

  lemma InstallHere(s: State, t: nat, i: nat, f: nat)
    requires Inv(s) && CanInstall(s.mem, s.tables, s.Roots(), t, i, f)
    ensures t in s.mem && |s.mem[t]| == 512 && t != f && LevelOf(s.tables, t) >= 1
  {
  }

  lemma InstallKept(s: State, t: nat, i: nat, f: nat, s': State)
    requires Inv(s) && CanInstall(s.mem, s.tables, s.Roots(), t, i, f)
    requires f !in s.used && 0 < f < s.total
    requires s' == s.(mem := Installed(s.mem, t, i, f), used := s.used + {f},
                      tables := s.tables[f := ChildInfo(s.tables, t, i)])
    ensures FramesKept(s, s')
  {
    hide TreeInv, Present, TableEntry;
    InstallHere(s, t, i, f);
  }

  /** What writing `e` as the leaf of `vpn` in the space at `r` does to every translation. */
  ghost predicate LeafEffect(s: State, s': State, r: nat, vpn: nat, e: nat) {
    forall r', v: nat :: r' in s.Roots() && v < VPN_LIMIT ==>
      Translate(s'.mem, r', v) ==
        if v == vpn && SharesTop(s, r, r', vpn) then LeafMapping(e) else Translate(s.mem, r', v)
  }

  /** Two spaces see the same page because their PML4 entries lead to the same table. In user halves
      this never happens for distinct spaces. */
  ghost predicate SharesTop(s: State, r: nat, r': nat, vpn: nat) {
    Walk(s.mem, r', vpn, 3) == Walk(s.mem, r, vpn, 3)
  }

  lemma LeafStep(s: State, r: nat, vpn: nat, e: nat) returns (s': State)
    requires Inv(s) && r in s.Roots() && vpn < VPN_LIMIT && Walk(s.mem, r, vpn, 1).Table?
    ensures var t := Walk(s.mem, r, vpn, 1).frame;
      && t in s.tables && s.tables[t].level == 1 && t in s.mem && |s.mem[t]| == 512
      && s' == s.(mem := Put(s.mem, t, Ix(vpn, 1), e))
    ensures Inv(s') && Grew(s, s') && LeafEffect(s, s', r, vpn, e)
    ensures forall r', v: nat :: r' in s.Roots() ==> Walk(s'.mem, r', v, 3) == Walk(s.mem, r', v, 3)
  {
    hide Ix, Walk, Translate, TreeInv, SpacesDistinct, FramesWellFormed, FramesKept, LeafMapping;
    WalkFacts(s.mem, s.tables, s.Roots(), r, vpn, 1);
    var t := Walk(s.mem, r, vpn, 1).frame;
    TableShape(s, t);
    s' := s.(mem := Put(s.mem, t, Ix(vpn, 1), e));
    LeafFrames(s, s', t, Ix(vpn, 1), e);
    LeafWalks(s, s', t, Ix(vpn, 1), e);
    forall r', v: nat | r' in s.Roots() && v < VPN_LIMIT
      ensures Translate(s'.mem, r', v) ==
        if v == vpn && SharesTop(s, r, r', vpn) then LeafMapping(e) else Translate(s.mem, r', v)
    {
      LeafWriteTranslate(s.mem, s.tables, s.Roots(), r, vpn, e, r', v);
    }
  }

  lemma TableShape(s: State, t: nat)
    requires Inv(s) && t in s.tables
    ensures t in s.mem && |s.mem[t]| == 512
  {
  }

  /** A leaf write keeps the invariant and every frame but its table. */
  lemma LeafFrames(s: State, s': State, t: nat, i: nat, e: nat)
    requires Inv(s) && t in s.tables && s.tables[t].level == 1 && t in s.mem && |s.mem[t]| == 512 && i < 512
    requires s' == s.(mem := Put(s.mem, t, i, e))
    ensures Inv(s') && FramesKept(s, s')
  {
    hide TreeInv;
    assert s'.Roots() == s.Roots();
    assert forall f: nat :: s'.Owned(f) <==> s.Owned(f);
    LeafWriteInv(s.mem, s.tables, s.Roots(), t, i, e);
  }

  lemma LeafWalks(s: State, s': State, t: nat, i: nat, e: nat)
    requires Inv(s) && t in s.tables && s.tables[t].level == 1 && t in s.mem && |s.mem[t]| == 512 && i < 512
    requires s' == s.(mem := Put(s.mem, t, i, e))
    ensures WalksKept(s.mem, s'.mem, s.Roots())
    ensures forall r, v: nat :: r in s.Roots() ==> Walk(s'.mem, r, v, 3) == Walk(s.mem, r, v, 3)
  {
    hide Walk, RootLink, ChildLink, ParentLink, SpacesDistinct, FramesWellFormed;
    forall r, v: nat, l | r in s.Roots() && 1 <= l <= 4 ensures Walk(s'.mem, r, v, l) == Walk(s.mem, r, v, l) {
      WalkStable(s.mem, s'.mem, s.tables, s.Roots(), r, v, l);
    }
  }

  lemma UserUnshared(s: State, r: nat, r': nat, vpn: nat)
    requires Inv(s) && r in s.Roots() && r' in s.Roots() && r != r'
    requires UserHalf(vpn) && Walk(s.mem, r, vpn, 3).Table?
    ensures !SharesTop(s, r, r', vpn)
  {
    hide Present, Huge, WalkFrame, TableEntry, LeafMapping, Ix, Walk, Translate;
    WalkFacts(s.mem, s.tables, s.Roots(), r, vpn, 3);
    if SharesTop(s, r, r', vpn) {
      WalkUnique(s.mem, s.tables, s.Roots(), r, vpn, r', vpn, 3, 4);
    }
  }

  /** How many tables a creating walk would still have to add. */
  function Missing(mem: Mem, root: nat, vpn: nat): nat {
    if Walk(mem, root, vpn, 1).Table? then 0
    else if Walk(mem, root, vpn, 2).Table? then 1
    else if Walk(mem, root, vpn, 3).Table? then 2
    else 3
  }

  // ---- Creating a space ----

  /** A new PML4: an empty user half under the kernel's upper half. */
  ghost function NewPml4(mem: Mem, kernelRoot: nat): (p: seq<nat>)
    ensures |p| == 512
    ensures forall i :: 0 <= i < 512 ==> p[i] == if i < 256 then 0 else Rd(mem, kernelRoot, i)
  {
    seq(512, i requires 0 <= i < 512 => if i < 256 then 0 else Rd(mem, kernelRoot, i))
  }

  ghost predicate Created(s: State, s': State, k: nat, p: nat) {
    && k !in s.used && p !in s.used && k != p && 0 < k < s.total && 0 < p < s.total
    && s.kernel in s.spaces
    && s' == s.(mem := s.mem[p := NewPml4(s.mem, s.spaces[s.kernel].pml4)], used := s.used + {k, p},
                spaces := s.spaces[k := Space(p, 1)])
  }

  lemma CreatedRoots(s: State, s': State, k: nat, p: nat)
    requires Inv(s) && Created(s, s', k, p)
    ensures s'.Roots() == s.Roots() + {p} && p !in s.Roots() && p !in s.tables && k !in s.tables
    ensures k !in s.Roots() && p !in s.spaces && k !in s.spaces && s.spaces[s.kernel].pml4 in s.Roots()
  {
    hide TreeInv;
    assert !s.Owned(p) && !s.Owned(k);
    assert s'.spaces[k].pml4 == p;
    forall r | r in s.Roots() ensures r in s'.Roots() {
      var j :| j in s.spaces && s.spaces[j].pml4 == r;
      assert j in s'.spaces && s'.spaces[j].pml4 == r;
    }
  }

  lemma CreateTree(s: State, s': State, k: nat, p: nat)
    requires Inv(s) && Created(s, s', k, p)
    ensures TreeInv(s'.mem, s'.tables, s'.Roots())
  {
    hide Present, Huge, WalkFrame, TableEntry, LinksTo;
    CreatedRoots(s, s', k, p);
    ZeroEntry();
    var kr := s.spaces[s.kernel].pml4;
    forall r, i | r in s'.Roots() && 0 <= i < 512 ensures RootLink(s'.mem, s'.tables, r, i) {
      assert RootLink(s.mem, s.tables, if r == p then kr else r, i);
      if r == p && i < 256 { assert Rd(s'.mem, r, i) == 0; }
    }
    forall t, i | t in s.tables && 0 <= i < 512 ensures ChildLink(s'.mem, s.tables, t, i) {
      assert ChildLink(s.mem, s.tables, t, i);
    }
    forall t | t in s.tables ensures ParentLink(s'.mem, s.tables, s'.Roots(), t) {
      assert ParentLink(s.mem, s.tables, s.Roots(), t);
    }
  }

  lemma CreateInv(s: State, s': State, k: nat, p: nat)
    requires Inv(s) && Created(s, s', k, p)
    ensures Inv(s')
  {
    CreateTree(s, s', k, p);
    CreatedRoots(s, s', k, p);
    hide TreeInv;
    assert forall f: nat :: s'.Owned(f) ==> s.Owned(f) || f == k || f == p;
    forall j | j in s.spaces ensures s.spaces[j].pml4 != p { assert s.spaces[j].pml4 in s.Roots(); }
  }

  /** A new space has an empty user half and the kernel's upper half; no other space changes. */
  lemma CreateTranslate(s: State, s': State, k: nat, p: nat, r: nat, vpn: nat)
    requires Inv(s) && Created(s, s', k, p)
    ensures r in s.Roots() ==> Translate(s'.mem, r, vpn) == Translate(s.mem, r, vpn)
    ensures Translate(s'.mem, p, vpn) ==
      if UserHalf(vpn) then Unmapped else Translate(s.mem, s.spaces[s.kernel].pml4, vpn)
  {
    CreatedRoots(s, s', k, p);
    var kr := s.spaces[s.kernel].pml4;
    CreateStable(s, s', k, p, kr, vpn);
    if r in s.Roots() { CreateStable(s, s', k, p, r, vpn); }
    ZeroEntry();
    hide Present, Huge, WalkFrame;
    if UserHalf(vpn) {
      assert Walk(s'.mem, p, vpn, 3) == Absent;
      assert Walk(s'.mem, p, vpn, 2) == Absent;
    } else {
      assert Walk(s'.mem, p, vpn, 4) == Table(p) && Walk(s'.mem, kr, vpn, 4) == Table(kr);
      assert Rd(s'.mem, p, Ix(vpn, 4)) == Rd(s'.mem, kr, Ix(vpn, 4));
      assert Walk(s'.mem, p, vpn, 3) == Walk(s'.mem, kr, vpn, 3);
      SharedBelow(s'.mem, kr, p, vpn);
    }
  }

  lemma CreateStable(s: State, s': State, k: nat, p: nat, r: nat, vpn: nat)
    requires Inv(s) && Created(s, s', k, p) && r in s.Roots()
    ensures Translate(s'.mem, r, vpn) == Translate(s.mem, r, vpn)
  {
    CreatedRoots(s, s', k, p);
    WalkStable(s.mem, s'.mem, s.tables, s.Roots(), r, vpn, 1);
    if Walk(s.mem, r, vpn, 1).Table? { WalkFacts(s.mem, s.tables, s.Roots(), r, vpn, 1); }
  }
}
