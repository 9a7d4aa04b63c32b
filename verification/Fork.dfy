/** The eager page copy of fork: a four-level walk of the parent that gives the child its own copy of
every user page. */
module Fork {
  import opened Common
  import opened Bits
  import opened Pte
  import opened PageTables
  import opened Spaces
  import opened Vmm
  import opened Runs

  /** The flag bits a copied page keeps: present, writable, user, write-through, cache-disable,
      accessed, dirty and no-execute. */
  const FORK_FLAGS: nat := 0x8000_0000_0000_007F

  /** The first user page: UserVirtualBase is 0x400000. No 48-bit address built from table indices
      reaches KernelVirtualBase, so the upper bound of the user range never bites. */
  const USER_BASE_VPN: nat := 0x400

  function CopyEntry(f: nat, e: nat): nat { LeafEntry(f * 4096, And(e, FORK_FLAGS)) }

  predicate Wanted(e: nat, vpn: nat) { Present(e) && UserPage(e) && vpn >= USER_BASE_VPN }

  /** The parent's page at `vpn` is one that fork copies. */
  ghost predicate Selected(s0: State, proot: nat, vpn: nat) {
    Translate(s0.mem, proot, vpn).Page? && Wanted(Translate(s0.mem, proot, vpn).entry, vpn)
  }

  ghost function SourceFrame(s0: State, proot: nat, vpn: nat): nat
    requires Selected(s0, proot, vpn)
  {
    LeafFrame(Translate(s0.mem, proot, vpn).entry)
  }

  /** What the copy starts from: a child with an empty user half, no user-flagged page in the
      parent's kernel half, and parent pages that are allocated data frames. */
  ghost predicate CanFork(s0: State, p: nat, c: nat) {
    && Inv(s0) && p in s0.spaces && c in s0.spaces && p != c
    && (forall v: nat :: v < VPN_LIMIT && UserHalf(v) ==> View(s0, c, v) == Unmapped)
    && (forall v: nat :: v < VPN_LIMIT && Selected(s0, s0.spaces[p].pml4, v) ==>
          && UserHalf(v)
          && SourceFrame(s0, s0.spaces[p].pml4, v) in s0.used
          && !s0.Owned(SourceFrame(s0, s0.spaces[p].pml4, v)))
  }

  ghost predicate ParentKept(s0: State, s: State, p: nat)
    requires p in s0.spaces
  {
    && s.spaces == s0.spaces
    && forall v: nat :: v < VPN_LIMIT ==> Translate(s.mem, s0.spaces[p].pml4, v) == View(s0, p, v)
  }

  /** No allocated data frame of the old state was written. */
  ghost predicate DataKept(s0: State, s: State) {
    && s0.used <= s.used
    && forall f: nat :: f in s0.used && !s0.Owned(f) ==>
         f in s.mem && f in s0.mem && s.mem[f] == s0.mem[f] && !s.Owned(f)
  }

  /** The child maps exactly the pages of `copies`, each to its own new frame with the kept flags. */
  ghost predicate ChildHas(s0: State, s: State, p: nat, c: nat, copies: map<nat, nat>)
    requires p in s0.spaces && c in s0.spaces
  {
    forall v: nat :: v < VPN_LIMIT && UserHalf(v) ==>
      Translate(s.mem, s0.spaces[c].pml4, v) ==
        if v in copies && View(s0, p, v).Page? then Page(CopyEntry(copies[v], View(s0, p, v).entry)) else Unmapped
  }

  ghost predicate CopyOk(s0: State, s: State, proot: nat, v: nat, f: nat) {
    && v < VPN_LIMIT && Selected(s0, proot, v)
    && f !in s0.used && f in s.used && !s.Owned(f)
    && f in s.mem && SourceFrame(s0, proot, v) in s0.mem
    && s.mem[f] == s0.mem[SourceFrame(s0, proot, v)]
  }

  /** Every copy is a selected page in a fresh frame with equal contents, and no two share a frame. */
  ghost predicate CopiesFresh(s0: State, s: State, proot: nat, copies: map<nat, nat>, bound: nat) {
    && (forall v :: v in copies ==> v < bound && CopyOk(s0, s, proot, v, copies[v]))
    && (forall v, v' :: v in copies && v' in copies && v != v' ==> copies[v] != copies[v'])
  }

  ghost predicate Copied(s0: State, s: State, p: nat, c: nat, copies: map<nat, nat>, bound: nat) {
    && p in s0.spaces && c in s0.spaces
    && ParentKept(s0, s, p) && DataKept(s0, s) && ChildHas(s0, s, p, c, copies)
    && CopiesFresh(s0, s, s0.spaces[p].pml4, copies, bound)
  }

  /** No selected page below the bound was left out. */
  ghost predicate Complete(s0: State, p: nat, copies: map<nat, nat>, bound: nat)
    requires p in s0.spaces
  {
    forall v: nat :: v < bound && v < VPN_LIMIT && Selected(s0, s0.spaces[p].pml4, v) ==> v in copies
  }

  /** The pages fork copies. */
  ghost function Selection(s0: State, proot: nat): (r: set<nat>)
    ensures forall v: nat :: v in r <==> v < VPN_LIMIT && Selected(s0, proot, v)
  {
    set v: nat | v < VPN_LIMIT && Selected(s0, proot, v)
  }

  /** Four free pages for every page still to be copied: the copy and at most three tables. */
  ghost predicate Ample(free: nat, s0: State, proot: nat, copies: map<nat, nat>) {
    free + 4 * |copies| >= 4 * |Selection(s0, proot)|
  }

  // ---- One page ----

  /** Taking a fresh frame and filling it is invisible to every space. */
  lemma TakeAndFill(s: State, f: nat, words: seq<nat>) returns (s1: State)
    requires Inv(s) && f !in s.used && 0 < f < s.total && |words| == 512
    ensures s1 == s.(used := s.used + {f}, mem := s.mem[f := words])
    ensures Inv(s1) && !s1.Owned(f) && s1.Roots() == s.Roots()
    ensures SameTranslations(s.mem, s1.mem, s.Roots()) && WalksKept(s.mem, s1.mem, s.Roots())
  {
    hide Translate, Walk, Present, Huge, WalkFrame, TableEntry;
    s1 := s.(used := s.used + {f}, mem := s.mem[f := words]);
    assert !s.Owned(f);
    assert s1.Roots() == s.Roots();
    assert forall g: nat :: s1.Owned(g) <==> s.Owned(g);
    FillTree(s, f, words);
    var s' := s.(mem := s.mem[f := words]);
    forall r, v: nat | r in s.Roots() ensures Translate(s1.mem, r, v) == Translate(s.mem, r, v) {
      WriteTranslate(s, s', f, words, r, v);
    }
    forall r, v: nat, l | r in s.Roots() && 1 <= l <= 4 ensures Walk(s1.mem, r, v, l) == Walk(s.mem, r, v, l) {
      WalkStable(s.mem, s1.mem, s.tables, s.Roots(), r, v, l);
    }
  }

  lemma FillTree(s: State, f: nat, words: seq<nat>)
    requires Inv(s) && f !in s.tables && f !in s.Roots()
    ensures TreeInv(s.mem[f := words], s.tables, s.Roots())
  {
    hide Present, Huge, WalkFrame, TableEntry, LinksTo;
    var mem' := s.mem[f := words];
    forall r, i | r in s.Roots() && 0 <= i < 512 ensures RootLink(mem', s.tables, r, i) {
      assert RootLink(s.mem, s.tables, r, i);
    }
    forall t, i | t in s.tables && 0 <= i < 512 ensures ChildLink(mem', s.tables, t, i) {
      assert ChildLink(s.mem, s.tables, t, i);
    }
    forall t | t in s.tables ensures ParentLink(mem', s.tables, s.Roots(), t) {
      assert ParentLink(s.mem, s.tables, s.Roots(), t);
    }
  }

  /** Copying the page at `vpn` into the fresh frame `f` and mapping it extends the copies by it. */
  lemma CopyStep(s0: State, s: State, s1: State, s2: State, p: nat, c: nat, copies: map<nat, nat>, vpn: nat, f: nat)
    requires CanFork(s0, p, c) && Inv(s) && Copied(s0, s, p, c, copies, vpn)
    requires vpn < VPN_LIMIT && Selected(s0, s0.spaces[p].pml4, vpn)
    requires f !in s.used && 0 < f < s.total
    requires var src := SourceFrame(s0, s0.spaces[p].pml4, vpn); src in s.mem && Filled(s, s1, f, s.mem[src])
    requires Inv(s1) && SameTranslations(s.mem, s1.mem, s.Roots()) && !s1.Owned(f) && s1.Roots() == s.Roots()
    requires Inv(s2) && Grew(s1, s2) && RootsKept(s1, s2, s0.spaces[c].pml4)
    requires MapEffect(s1, s2, s0.spaces[c].pml4, vpn, CopyEntry(f, View(s0, p, vpn).entry))
    ensures Copied(s0, s2, p, c, copies[vpn := f], vpn + 1)
  {
    hide Translate, Inv, UserHalf, Walk, WalksKept, RootsKept, CopyEntry, Wanted, LeafFrame;
    var words := s.mem[SourceFrame(s0, s0.spaces[p].pml4, vpn)];
    StepData(s0, s, s1, s2, f, words);
    StepParent(s0, s, s1, s2, p, c, vpn, CopyEntry(f, View(s0, p, vpn).entry));
    StepCopies(s0, s, s1, s2, p, copies, vpn, f);
    StepChild(s0, s, s1, s2, p, c, copies, vpn, f);
  }

  ghost predicate Filled(s: State, s1: State, f: nat, words: seq<nat>) {
    s1 == s.(used := s.used + {f}, mem := s.mem[f := words])
  }

  lemma StepData(s0: State, s: State, s1: State, s2: State, f: nat, words: seq<nat>)
    requires DataKept(s0, s) && f !in s.used && Filled(s, s1, f, words) && Inv(s1) && Grew(s1, s2)
    ensures DataKept(s0, s2)
  {
    hide Inv, Grew, Filled;
    assert s.used <= s2.used by { UsedGrows(s, s1, s2, f, words); }
    forall g: nat | g in s0.used && !s0.Owned(g)
      ensures g in s2.mem && g in s0.mem && s2.mem[g] == s0.mem[g] && !s2.Owned(g)
    {
      KeptFrame(s, s1, s2, f, words, g);
    }
  }

  lemma UsedGrows(s: State, s1: State, s2: State, f: nat, words: seq<nat>)
    requires Filled(s, s1, f, words) && Grew(s1, s2)
    ensures s.used <= s2.used
  {
  }

  /** Mapping in the child leaves the parent's translations alone. */
  lemma StepParent(s0: State, s: State, s1: State, s2: State, p: nat, c: nat, vpn: nat, e: nat)
    requires p in s0.spaces && c in s0.spaces && p != c && ParentKept(s0, s, p)
    requires Inv(s1) && SameTranslations(s.mem, s1.mem, s.Roots()) && s1.spaces == s.spaces
    requires Inv(s2) && Grew(s1, s2) && RootsKept(s1, s2, s0.spaces[c].pml4) && UserHalf(vpn) && vpn < VPN_LIMIT
    requires MapEffect(s1, s2, s0.spaces[c].pml4, vpn, e)
    ensures ParentKept(s0, s2, p)
  {
    hide Translate, UserHalf, Inv, Grew, MapEffect, Walk, RootsKept;
    var proot := s0.spaces[p].pml4;
    GrewRoots(s1, s2);
    assert proot in s.Roots();
    var op := Map(c, vpn, e, true);
    assert Step(s1, op, s2);
    forall v: nat | v < VPN_LIMIT ensures Translate(s2.mem, proot, v) == View(s0, p, v) {
      assert Translate(s1.mem, proot, v) == Translate(s.mem, proot, v) == View(s0, p, v);
      if UserHalf(v) { MapView(s1, op, s2, p, v); } else { KernelHalfUntouched(s1, op, s2, p, v); }
    }
  }

  lemma KeptFrame(s: State, s1: State, s2: State, f: nat, words: seq<nat>, g: nat)
    requires g in s.used && !s.Owned(g) && g != f && g in s.mem
    requires Filled(s, s1, f, words) && Inv(s1) && Grew(s1, s2)
    ensures g in s2.mem && s2.mem[g] == s.mem[g] && !s2.Owned(g) && g in s2.used
  {
    hide TreeInv, WalksKept, SpacesDistinct;
    assert s1.Roots() == s.Roots() && s2.Roots() == s1.Roots();
  }

  lemma StepCopies(s0: State, s: State, s1: State, s2: State, p: nat, copies: map<nat, nat>, vpn: nat, f: nat)
    requires Inv(s0) && p in s0.spaces && CopiesFresh(s0, s, s0.spaces[p].pml4, copies, vpn) && DataKept(s0, s)
    requires vpn < VPN_LIMIT && Selected(s0, s0.spaces[p].pml4, vpn)
    requires f !in s.used && 0 < f < s.total
    requires var src := SourceFrame(s0, s0.spaces[p].pml4, vpn);
      && src in s0.used && !s0.Owned(src)
      && src in s.mem && Filled(s, s1, f, s.mem[src])
    requires Inv(s1) && !s1.Owned(f) && Inv(s2) && Grew(s1, s2)
    ensures CopiesFresh(s0, s2, s0.spaces[p].pml4, copies[vpn := f], vpn + 1)
  {
    hide Inv, Grew, CopyOk, Filled, Selected, SourceFrame, DataKept;
    var proot := s0.spaces[p].pml4;
    NewCopy(s0, s, s1, s2, proot, vpn, f);
    forall v | v in copies ensures CopyOk(s0, s2, proot, v, copies[v]) && copies[v] != f {
      OldCopy(s0, s, s1, s2, proot, v, copies[v], f, s.mem[SourceFrame(s0, proot, vpn)]);
    }
  }

  /** An earlier copy stays as it is, in a frame of its own. */
  lemma OldCopy(s0: State, s: State, s1: State, s2: State, proot: nat, v: nat, g: nat, f: nat, words: seq<nat>)
    requires CopyOk(s0, s, proot, v, g) && f !in s.used
    requires Filled(s, s1, f, words) && Inv(s1) && Grew(s1, s2)
    ensures CopyOk(s0, s2, proot, v, g) && g != f
  {
    hide Inv, Grew, Filled, Selected, SourceFrame;
    KeptFrame(s, s1, s2, f, words, g);
  }

  /** The new copy holds the parent's page. */
  lemma NewCopy(s0: State, s: State, s1: State, s2: State, proot: nat, vpn: nat, f: nat)
    requires Inv(s0) && DataKept(s0, s) && vpn < VPN_LIMIT && Selected(s0, proot, vpn) && f !in s.used
    requires var src := SourceFrame(s0, proot, vpn);
      src in s0.used && !s0.Owned(src) && src in s.mem && Filled(s, s1, f, s.mem[src])
    requires Inv(s1) && !s1.Owned(f) && Grew(s1, s2)
    ensures CopyOk(s0, s2, proot, vpn, f)
  {
    hide Inv, Grew, Selected, SourceFrame;
    DataStays(s1, s2, f);
  }

  /** Growing the tree of tables leaves allocated data frames alone. */
  lemma DataStays(s: State, s': State, f: nat)
    requires Inv(s) && Grew(s, s') && f in s.used && !s.Owned(f)
    ensures f in s.mem && f in s'.mem && s'.mem[f] == s.mem[f] && !s'.Owned(f) && f in s'.used
  {
    hide TreeInv, WalksKept, SpacesDistinct;
    assert s'.Roots() == s.Roots();
    assert f < s.total;
  }

  lemma StepChild(s0: State, s: State, s1: State, s2: State, p: nat, c: nat, copies: map<nat, nat>, vpn: nat, f: nat)
    requires p in s0.spaces && c in s0.spaces && ChildHas(s0, s, p, c, copies)
    requires vpn < VPN_LIMIT && UserHalf(vpn) && View(s0, p, vpn).Page? && vpn !in copies
    requires s.spaces == s0.spaces && s1.spaces == s.spaces
    requires SameTranslations(s.mem, s1.mem, s.Roots())
    requires MapEffect(s1, s2, s0.spaces[c].pml4, vpn, CopyEntry(f, View(s0, p, vpn).entry))
    ensures ChildHas(s0, s2, p, c, copies[vpn := f])
  {
    hide Translate, UserHalf, Walk;
    var croot := s0.spaces[c].pml4;
    assert croot == s.spaces[c].pml4 && croot in s.Roots() && s1.Roots() == s.Roots();
    assert SharesTop(s2, croot, croot, vpn);
    forall v: nat | v < VPN_LIMIT && UserHalf(v)
      ensures Translate(s2.mem, croot, v) ==
        if v in copies[vpn := f] && View(s0, p, v).Page?
        then Page(CopyEntry(copies[vpn := f][v], View(s0, p, v).entry)) else Unmapped
    {
      assert Translate(s1.mem, croot, v) == Translate(s.mem, croot, v);
    }
  }

  /** The copied entry maps the new frame. */
  lemma CopyEntryFrame(f: nat, e: nat)
    requires f < FRAME_LIMIT
    ensures Present(CopyEntry(f, e)) && LeafFrame(CopyEntry(f, e)) == f
    ensures f * 4096 <= ADDR_MASK
  {
    hide Present, LeafEntry, LeafFrame;
    MasksDisjoint(e);
    LeafEntryFrame(f * 4096, And(e, FORK_FLAGS));
  }

  /** The bits of a copied entry outside the address field: present is set, writable, user, write-through,
      cache-disable, accessed, dirty and no-execute are the parent's, and all others are clear. */
  lemma CopyEntryBits(f: nat, e: nat, k: nat)
    requires f < FRAME_LIMIT && (k < 12 || 52 <= k < 64)
    ensures Bit(CopyEntry(f, e), k) <==> k == 0 || ((1 <= k <= 6 || k == 63) && Bit(e, k))
  {
    hide And, LeafEntry, Bit;
    OutsideField(k);
    KeptBits(k);
    AndBit(e, FORK_FLAGS, k);
    LeafEntryFlags(f * 4096, And(e, FORK_FLAGS), k);
  }

  lemma KeptBits(k: nat)
    requires k < 12 || 52 <= k < 64
    ensures Bit(FORK_FLAGS, k) <==> k <= 6 || k == 63
  {
    hide Bit, Pow2;
    BitByDiv(FORK_FLAGS, k);
    Weight(k);
  }

  lemma MasksDisjoint(e: nat)
    ensures And(And(e, FORK_FLAGS), ADDR_MASK) == 0
  {
    OutsideAddress(e, FORK_FLAGS);
  }

  lemma OutsideAddress(e: nat, flags: nat)
    requires flags / 4096 % FRAME_LIMIT == 0
    ensures And(And(e, flags), ADDR_MASK) == 0
  {
    AddrField(flags);
    AndZero(e, flags, ADDR_MASK);
  }

  lemma AndZero(e: nat, a: nat, b: nat)
    requires And(a, b) == 0
    ensures And(And(e, a), b) == 0
  {
    var r := And(And(e, a), b);
    if r != 0 {
      var k := HighBit(r);
      NoCommonBit(e, a, b, k);
    }
  }

  lemma NoCommonBit(e: nat, a: nat, b: nat, k: nat)
    requires And(a, b) == 0
    ensures !Bit(And(And(e, a), b), k)
  {
    AndBit(And(e, a), b, k);
    AndBit(e, a, k);
    AndBit(a, b, k);
    ZeroBit(k);
  }

  // ---- The nested loops ----

  /** Pages covered by one entry at a level. */
  function Span(level: nat): nat
    requires 1 <= level <= 5
  {
    if level == 1 then 1 else if level == 2 then 512 else if level == 3 then 0x4_0000
    else if level == 4 then 0x800_0000 else VPN_LIMIT
  }

  /** Page numbers below entry `i` of a table share the table's indices and use entry `i`. */
  lemma IxRange(base: nat, level: nat, i: nat, v: nat)
    requires 1 <= level <= 4 && i < 512 && base % Span(level + 1) == 0 && base < VPN_LIMIT
    requires base + i * Span(level) <= v < base + (i + 1) * Span(level)
    ensures v < VPN_LIMIT && Ix(v, level) == i
    ensures forall l :: level < l <= 4 ==> Ix(v, l) == Ix(base, l)
    ensures (base + i * Span(level)) % Span(level) == 0
  {
    hide Ix;
    if level == 1 {
      IxLevel1(base, i, v);
    } else if level == 2 {
      IxLevel2(base, i, v);
    } else if level == 3 {
      IxLevel3(base, i, v);
    } else {
      IxLevel4(i, v);
    }
  }

  lemma IxLevel1(base: nat, i: nat, v: nat)
    requires i < 512 && base % 512 == 0 && v == base + i && base < VPN_LIMIT
    ensures v < VPN_LIMIT && Ix(v, 1) == i
    ensures Ix(v, 2) == Ix(base, 2) && Ix(v, 3) == Ix(base, 3) && Ix(v, 4) == Ix(base, 4)
  {
    Digit1(base, i, v);
  }

  lemma IxLevel2(base: nat, i: nat, v: nat)
    requires i < 512 && base % 0x4_0000 == 0 && base + i * 512 <= v < base + (i + 1) * 512 && base < VPN_LIMIT
    ensures v < VPN_LIMIT && Ix(v, 2) == i && Ix(v, 3) == Ix(base, 3) && Ix(v, 4) == Ix(base, 4)
    ensures (base + i * 512) % 512 == 0
  {
    Digit2(base, i, v);
  }

  lemma IxLevel3(base: nat, i: nat, v: nat)
    requires i < 512 && base % 0x800_0000 == 0 && base < VPN_LIMIT
    requires base + i * 0x4_0000 <= v < base + (i + 1) * 0x4_0000
    ensures v < VPN_LIMIT && Ix(v, 3) == i && Ix(v, 4) == Ix(base, 4)
    ensures (base + i * 0x4_0000) % 0x4_0000 == 0
  {
    Digit3(base, i, v);
  }

  lemma IxLevel4(i: nat, v: nat)
    requires i < 512 && i * 0x800_0000 <= v < (i + 1) * 0x800_0000
    ensures v < VPN_LIMIT && Ix(v, 4) == i && i * 0x800_0000 % 0x800_0000 == 0
  {
  }

  lemma Digit1(base: nat, i: nat, v: nat)
    requires i < 512 && base % 512 == 0 && v == base + i
    ensures v % 512 == i && v / 512 == base / 512
    ensures v / 0x4_0000 == base / 0x4_0000 && v / 0x800_0000 == base / 0x800_0000
  {
    DivDiv(v, base);
  }

  lemma Digit2(base: nat, i: nat, v: nat)
    requires i < 512 && base % 0x4_0000 == 0 && base + i * 512 <= v < base + (i + 1) * 512
    ensures v / 512 % 512 == i && v / 0x4_0000 == base / 0x4_0000 && v / 0x800_0000 == base / 0x800_0000
    ensures (base + i * 512) % 512 == 0
  {
    var q := base / 0x4_0000;
    Digit2At(q, i, v - q * 0x4_0000 - i * 512);
    DivBy512(v);
    DivBy512(base);
  }

  lemma Digit2At(q: nat, i: nat, r: nat)
    requires i < 512 && r < 512
    ensures var v := q * 0x4_0000 + i * 512 + r; v / 512 % 512 == i && v / 0x4_0000 == q
    ensures (q * 0x4_0000 + i * 512) % 512 == 0
  {
    var v := q * 0x4_0000 + i * 512 + r;
    ModUnique(v, 512, q * 512 + i, r);
    ModUnique(q * 512 + i, 512, q, i);
    ModUnique(v, 0x4_0000, q, i * 512 + r);
    ModUnique(v - r, 512, q * 512 + i, 0);
  }

  lemma DivBy512(a: nat)
    ensures a / 0x800_0000 == a / 0x4_0000 / 512
  {
  }

  lemma Digit3(base: nat, i: nat, v: nat)
    requires i < 512 && base % 0x800_0000 == 0 && base + i * 0x4_0000 <= v < base + (i + 1) * 0x4_0000
    ensures v / 0x4_0000 % 512 == i && v / 0x800_0000 == base / 0x800_0000
    ensures (base + i * 0x4_0000) % 0x4_0000 == 0
  {
    var q := base / 0x800_0000;
    assert base == q * 0x800_0000;
    ModUnique(v, 0x4_0000, q * 512 + i, v - base - i * 0x4_0000);
    ModUnique(v, 0x800_0000, q, v - base);
  }

  lemma DivDiv(a: nat, b: nat)
    requires a / 512 == b / 512
    ensures a / 0x4_0000 == b / 0x4_0000 && a / 0x800_0000 == b / 0x800_0000
  {
    assert a / 0x4_0000 == a / 512 / 512 && b / 0x4_0000 == b / 512 / 512;
    assert a / 0x800_0000 == a / 512 / 0x4_0000 && b / 0x800_0000 == b / 512 / 0x4_0000;
  }

  lemma {:induction false} WalkPrefix(mem: Mem, r: nat, a: nat, b: nat, level: nat)
    requires 1 <= level <= 4 && forall l :: level < l <= 4 ==> Ix(a, l) == Ix(b, l)
    ensures Walk(mem, r, a, level) == Walk(mem, r, b, level)
    decreases 4 - level
  {
    hide Ix, Present, Huge, WalkFrame;
    if level < 4 { WalkPrefix(mem, r, a, b, level + 1); }
  }

  /** What entry `i` of a parent table says about every page below it. */
  lemma EntryRange(mem: Mem, r: nat, table: nat, level: nat, base: nat, i: nat, v: nat)
    requires 1 <= level <= 4 && i < 512 && base % Span(level + 1) == 0 && base < VPN_LIMIT
    requires base + i * Span(level) <= v < base + (i + 1) * Span(level)
    requires Walk(mem, r, base, level) == Table(table)
    ensures v < VPN_LIMIT
    ensures level == 1 ==> Translate(mem, r, v) == LeafMapping(Rd(mem, table, i))
    ensures level > 1 && !Present(Rd(mem, table, i)) ==> Translate(mem, r, v) == Unmapped
    ensures level > 1 && Follow(Rd(mem, table, i), level).Big? ==> Translate(mem, r, v).BigPage?
    ensures level > 1 ==> Walk(mem, r, v, level - 1) == Follow(Rd(mem, table, i), level)
    ensures (base + i * Span(level)) % Span(level) == 0
  {
    hide Ix, Present, Huge, WalkFrame, LeafMapping;
    IxRange(base, level, i, v);
    WalkPrefix(mem, r, v, base, level);
    if level > 1 && !Follow(Rd(mem, table, i), level).Table? { StopsBelow(mem, r, v, level - 1); }
  }

  lemma StopsBelow(mem: Mem, r: nat, v: nat, level: nat)
    requires 1 <= level <= 3 && !Walk(mem, r, v, level).Table?
    ensures Walk(mem, r, v, 1) == Walk(mem, r, v, level)
  {
    hide Ix, Follow;
    if level == 3 { assert Walk(mem, r, v, 2) == Walk(mem, r, v, 3); }
  }

  /** Skipping a range without selected pages. */
  lemma SkipRange(s0: State, s: State, p: nat, c: nat, copies: map<nat, nat>, lo: nat, hi: nat)
    requires lo <= hi && Copied(s0, s, p, c, copies, lo)
    requires forall v: nat :: lo <= v < hi && v < VPN_LIMIT ==> !Selected(s0, s0.spaces[p].pml4, v)
    ensures Copied(s0, s, p, c, copies, hi)
    ensures Complete(s0, p, copies, lo) ==> Complete(s0, p, copies, hi)
  {
    hide ParentKept, DataKept, ChildHas, CopyOk, Selected;
  }

  /** An entry that leads to no page fork wants. */
  lemma SkipEntry(s0: State, s: State, p: nat, c: nat, copies: map<nat, nat>,
                  table: nat, level: nat, base: nat, i: nat)
    requires 1 <= level <= 4 && i < 512 && base % Span(level + 1) == 0 && base < VPN_LIMIT
    requires Copied(s0, s, p, c, copies, base + i * Span(level))
    requires Walk(s.mem, s0.spaces[p].pml4, base, level) == Table(table)
    requires var e := Rd(s.mem, table, i);
      if level == 1 then !Wanted(e, base + i) else !Follow(e, level).Table?
    ensures Copied(s0, s, p, c, copies, base + (i + 1) * Span(level))
    ensures Complete(s0, p, copies, base + i * Span(level)) ==> Complete(s0, p, copies, base + (i + 1) * Span(level))
  {
    hide Translate, Walk, UserPage, Present, Huge, WalkFrame, DataKept, ChildHas, CopiesFresh;
    var proot := s0.spaces[p].pml4;
    forall v: nat | base + i * Span(level) <= v < base + (i + 1) * Span(level) && v < VPN_LIMIT
      ensures !Selected(s0, proot, v)
    {
      EntryRange(s.mem, proot, table, level, base, i, v);
      assert Translate(s.mem, proot, v) == View(s0, p, v);
      assert level == 1 ==> v == base + i;
    }
    SkipRange(s0, s, p, c, copies, base + i * Span(level), base + (i + 1) * Span(level));
  }

  /** A copy whose mapping failed for want of a table: nothing is added. */
  lemma MissStep(s0: State, s: State, s1: State, s2: State, p: nat, c: nat, copies: map<nat, nat>, vpn: nat,
                 f: nat, words: seq<nat>)
    requires CanFork(s0, p, c) && Inv(s) && Copied(s0, s, p, c, copies, vpn) && f !in s.used
    requires Filled(s, s1, f, words) && Inv(s1) && SameTranslations(s.mem, s1.mem, s.Roots())
    requires Inv(s2) && Grew(s1, s2) && SameTranslations(s1.mem, s2.mem, s1.Roots())
    ensures Copied(s0, s2, p, c, copies, vpn + 1)
  {
    hide Translate, Inv, Walk, WalksKept, CopyEntry, Selected, SourceFrame;
    StepData(s0, s, s1, s2, f, words);
    var proot, croot := s0.spaces[p].pml4, s0.spaces[c].pml4;
    assert proot in s.Roots() && croot in s.Roots() && s1.Roots() == s.Roots();
    forall r, v: nat | r == proot || r == croot ensures Translate(s2.mem, r, v) == Translate(s.mem, r, v) {
      assert Translate(s1.mem, r, v) == Translate(s.mem, r, v);
    }
    forall v | v in copies ensures CopyOk(s0, s2, proot, v, copies[v]) {
      assert CopyOk(s0, s, proot, v, copies[v]);
      KeptFrame(s, s1, s2, f, words, copies[v]);
    }
  }

  /** Copies one page: a fresh frame, its contents, and a mapping in the child. A failed mapping is
      ignored, as in the source. */
  method CopyPage(m: Manager, e: nat, vpn: nat, ghost p: nat, c: nat, ghost s0: State, ghost copies: map<nat, nat>)
    returns (ok: bool, mapped: bool, ghost after: map<nat, nat>)
    requires m.Valid() && CanFork(s0, p, c) && Copied(s0, m.Snap(), p, c, copies, vpn)
    requires vpn < VPN_LIMIT && View(s0, p, vpn) == Page(e) && Wanted(e, vpn)
    modifies m`mem, m`tables, m.pmm, m.pmm.bitmap
    ensures m.Valid() && Copied(s0, m.Snap(), p, c, after, vpn + 1)
    ensures WalksKept(old(m.mem), m.mem, old(m.Snap()).Roots())
    ensures copies.Keys <= after.Keys && (ok && mapped ==> vpn in after)
    ensures !ok ==> m.Snap() == old(m.Snap())
    ensures m.pmm.freePages <= old(m.pmm.freePages) && (!(ok && mapped) ==> m.pmm.freePages == 0)
    ensures Ample(old(m.pmm.freePages), s0, s0.spaces[p].pml4, copies) ==>
      ok && mapped && Ample(m.pmm.freePages, s0, s0.spaces[p].pml4, after)
  {
    hide Inv, Copied, WalksKept, Grew, SameTranslations, MapEffect, Present, UserPage, LeafFrame, LeafEntry,
         Pmm.UsedIn, Pmm.Set, Pmm.NextFit, Ample, Missing;
    ghost var s := m.Snap();
    ForkFacts(s0, s, p, c, copies, vpn, e);
    StillToCopy(s0, s, p, c, copies, vpn, e);
    AmpleFour(m.pmm.freePages, s0, p, copies, vpn);
    after, mapped := copies, false;
    var phys := m.pmm.AllocPage();
    if phys == 0 {
      SkipOne(s0, s, p, c, copies, vpn);
      return false, false, copies;
    }
    var f := phys / 4096;
    assert phys == f * 4096;
    ghost var words := m.mem[LeafFrame(e)];
    ghost var s1 := TakeAndFill(s, f, words);
    m.mem := m.mem[f := m.mem[LeafFrame(e)]];
    CopyEntryFrame(f, e);
    UserWalkable(s1, c, vpn);
    AtMostThree(m.mem, m.spaces[c].pml4, vpn);
    var r := m.MapPage(Some(c), vpn * 4096, phys, And(e, FORK_FLAGS));
    ghost var s2 := m.Snap();
    KeptThrough(s, s1, s2);
    if r == 1 {
      CopyStep(s0, s, s1, s2, p, c, copies, vpn, f);
      AmpleStep(old(m.pmm.freePages), m.pmm.freePages, s0, s0.spaces[p].pml4, copies, vpn, f);
      return true, true, copies[vpn := f];
    }
    MissStep(s0, s, s1, s2, p, c, copies, vpn, f, words);
    return true, false, copies;
  }

  lemma StillToCopy(s0: State, s: State, p: nat, c: nat, copies: map<nat, nat>, vpn: nat, e: nat)
    requires p in s0.spaces && Copied(s0, s, p, c, copies, vpn) && vpn < VPN_LIMIT
    requires View(s0, p, vpn) == Page(e) && Wanted(e, vpn)
    ensures vpn !in copies && vpn in Selection(s0, s0.spaces[p].pml4)
    ensures copies.Keys <= Selection(s0, s0.spaces[p].pml4)
  {
    hide Translate, ParentKept, DataKept, ChildHas, Wanted;
    var proot := s0.spaces[p].pml4;
    forall v | v in copies ensures v in Selection(s0, proot) { assert CopyOk(s0, s, proot, v, copies[v]); }
  }

  lemma AmpleFour(free: nat, s0: State, p: nat, copies: map<nat, nat>, vpn: nat)
    requires p in s0.spaces && vpn !in copies && vpn in Selection(s0, s0.spaces[p].pml4)
    requires copies.Keys <= Selection(s0, s0.spaces[p].pml4)
    ensures Ample(free, s0, s0.spaces[p].pml4, copies) ==> free >= 4
  {
    var sel := Selection(s0, s0.spaces[p].pml4);
    SubsetSize(copies.Keys, sel);
    assert |copies| == |copies.Keys|;
  }

  lemma AmpleStep(free: nat, free': nat, s0: State, proot: nat, copies: map<nat, nat>, vpn: nat, f: nat)
    requires vpn !in copies && free' + 4 >= free
    ensures Ample(free, s0, proot, copies) ==> Ample(free', s0, proot, copies[vpn := f])
  {
    assert copies[vpn := f].Keys == copies.Keys + {vpn};
    assert |copies[vpn := f]| == |copies[vpn := f].Keys| == |copies| + 1;
  }

  lemma AtMostThree(mem: Mem, root: nat, vpn: nat)
    ensures Missing(mem, root, vpn) <= 3
  {
  }

  lemma ForkFacts(s0: State, s: State, p: nat, c: nat, copies: map<nat, nat>, vpn: nat, e: nat)
    requires CanFork(s0, p, c) && Copied(s0, s, p, c, copies, vpn) && Inv(s)
    requires vpn < VPN_LIMIT && View(s0, p, vpn) == Page(e) && Wanted(e, vpn)
    ensures s.spaces == s0.spaces && Selected(s0, s0.spaces[p].pml4, vpn) && UserHalf(vpn)
    ensures LeafFrame(e) == SourceFrame(s0, s0.spaces[p].pml4, vpn)
    ensures LeafFrame(e) in s.mem && |s.mem[LeafFrame(e)]| == 512 && c in s.spaces
    ensures VpnOf(vpn * 4096) == vpn && vpn * 4096 % 4096 == 0 && s.total <= FRAME_LIMIT
  {
    hide Translate, ChildHas, CopiesFresh, TreeInv, SpacesDistinct, LeafFrame;
    assert Selected(s0, s0.spaces[p].pml4, vpn);
  }

  lemma KeptThrough(s: State, s1: State, s2: State)
    requires WalksKept(s.mem, s1.mem, s.Roots()) && s1.Roots() == s.Roots() && Grew(s1, s2)
    ensures WalksKept(s.mem, s2.mem, s.Roots())
  {
    hide WalksKept;
    WalksKeptTrans(s.mem, s1.mem, s2.mem, s.Roots());
  }

  lemma SkipOne(s0: State, s: State, p: nat, c: nat, copies: map<nat, nat>, vpn: nat)
    requires Copied(s0, s, p, c, copies, vpn)
    ensures Copied(s0, s, p, c, copies, vpn + 1) && WalksKept(s.mem, s.mem, s.Roots())
  {
    hide ParentKept, DataKept, ChildHas, CopyOk;
  }

  /** One of the four nested loops: every entry of a parent table. */
  method CopyBelow(m: Manager, table: nat, level: nat, base: nat, ghost p: nat, c: nat,
                   ghost s0: State, ghost copies: map<nat, nat>)
    returns (ok: bool, missed: nat, ghost after: map<nat, nat>)
    requires p in s0.spaces && m.Valid() && CanFork(s0, p, c) && Copied(s0, m.Snap(), p, c, copies, base)
    requires 1 <= level <= 4 && base % Span(level + 1) == 0 && base + Span(level + 1) <= VPN_LIMIT
    requires Walk(m.mem, s0.spaces[p].pml4, base, level) == Table(table)
    modifies m`mem, m`tables, m.pmm, m.pmm.bitmap
    ensures m.Valid() && WalksKept(old(m.mem), m.mem, s0.Roots()) && copies.Keys <= after.Keys
    ensures Copied(s0, m.Snap(), p, c, after, base + Span(level + 1))
    ensures ok && missed == 0 && Complete(s0, p, copies, base) ==> Complete(s0, p, after, base + Span(level + 1))
    ensures m.pmm.freePages <= old(m.pmm.freePages) && (!(ok && missed == 0) ==> m.pmm.freePages == 0)
    ensures Ample(old(m.pmm.freePages), s0, s0.spaces[p].pml4, copies) ==>
      ok && missed == 0 && Ample(m.pmm.freePages, s0, s0.spaces[p].pml4, after)
    decreases level, 1
  {
    hide Inv, Copied, CanFork, WalksKept, Complete, Walk, Pmm.UsedIn, Ample;
    ok, missed, after := true, 0, copies;
    WalksRefl(m.mem, s0.Roots());
    var i := 0;
    while i < 512
      invariant i <= 512 && m.Valid() && WalksKept(old(m.mem), m.mem, s0.Roots()) && copies.Keys <= after.Keys
      invariant Copied(s0, m.Snap(), p, c, after, base + i * Span(level))
      invariant Walk(m.mem, s0.spaces[p].pml4, base, level) == Table(table)
      invariant missed == 0 && Complete(s0, p, copies, base) ==> Complete(s0, p, after, base + i * Span(level))
      invariant m.pmm.freePages <= old(m.pmm.freePages) && (missed > 0 ==> m.pmm.freePages == 0)
      invariant Ample(old(m.pmm.freePages), s0, s0.spaces[p].pml4, copies) ==>
        missed == 0 && Ample(m.pmm.freePages, s0, s0.spaces[p].pml4, after)
    {
      ghost var was, mem1 := after, m.mem;
      var more;
      ok, more, after := CopyEntryAt(m, table, level, base, i, p, c, s0, was);
      WalksAlong(old(m.mem), mem1, m.mem, s0, p, base, level);
      missed := missed + more;
      i := i + 1;
      if !ok {
        Widen(s0, m.Snap(), p, c, after, base + i * Span(level), base + Span(level + 1));
        return;
      }
    }
  }

  /** The loop body for entry `i`: skip, descend, or copy a leaf. */
  method CopyEntryAt(m: Manager, table: nat, level: nat, base: nat, i: nat, ghost p: nat, c: nat,
                     ghost s0: State, ghost copies: map<nat, nat>)
    returns (ok: bool, missed: nat, ghost after: map<nat, nat>)
    requires 1 <= level <= 4 && i < 512 && base % Span(level + 1) == 0 && base + Span(level + 1) <= VPN_LIMIT
    requires p in s0.spaces && m.Valid() && CanFork(s0, p, c)
    requires Copied(s0, m.Snap(), p, c, copies, base + i * Span(level))
    requires Walk(m.mem, s0.spaces[p].pml4, base, level) == Table(table)
    modifies m`mem, m`tables, m.pmm, m.pmm.bitmap
    ensures m.Valid() && WalksKept(old(m.mem), m.mem, s0.Roots()) && copies.Keys <= after.Keys
    ensures Copied(s0, m.Snap(), p, c, after, base + (i + 1) * Span(level))
    ensures ok && missed == 0 && Complete(s0, p, copies, base + i * Span(level)) ==>
      Complete(s0, p, after, base + (i + 1) * Span(level))
    ensures m.pmm.freePages <= old(m.pmm.freePages) && (!(ok && missed == 0) ==> m.pmm.freePages == 0)
    ensures Ample(old(m.pmm.freePages), s0, s0.spaces[p].pml4, copies) ==>
      ok && missed == 0 && Ample(m.pmm.freePages, s0, s0.spaces[p].pml4, after)
    decreases level, 0
  {
    hide Ample, Inv, Copied, CanFork, WalksKept, Complete, Walk, Pmm.UsedIn, Translate, Present, Huge, UserPage,
         WalkFrame, Follow, Wanted;
    WalksRefl(m.mem, s0.Roots());
    ghost var s, proot := m.Snap(), s0.spaces[p].pml4;
    TableHere(s0, s, p, c, copies, table, level, base, i);
    EntryRange(m.mem, proot, table, level, base, i, base + i * Span(level));
    var e := m.mem[table][i];
    if level == 1 {
      if !Wanted(e, base + i) {
        SkipEntry(s0, s, p, c, copies, table, level, base, i);
        return true, 0, copies;
      }
      LeafHere(s0, s, p, c, copies, base + i, e);
      var mapped;
      ok, mapped, after := CopyPage(m, e, base + i, p, c, s0, copies);
      missed := if mapped then 0 else 1;
      if ok && mapped { CompleteOne(s0, p, copies, after, base + i); }
    } else {
      var next := Follow(e, level);
      if !next.Table? {
        SkipEntry(s0, s, p, c, copies, table, level, base, i);
        return true, 0, copies;
      }
      ok, missed, after := CopyBelow(m, next.frame, level - 1, base + i * Span(level), p, c, s0, copies);
    }
  }

  lemma WalksRefl(mem: Mem, roots: set<nat>)
    ensures WalksKept(mem, mem, roots)
  {
  }

  lemma WalksAlong(m0: Mem, m1: Mem, m2: Mem, s0: State, p: nat, base: nat, level: nat)
    requires WalksKept(m0, m1, s0.Roots()) && WalksKept(m1, m2, s0.Roots())
    requires p in s0.spaces && 1 <= level <= 4 && Walk(m1, s0.spaces[p].pml4, base, level).Table?
    ensures WalksKept(m0, m2, s0.Roots())
    ensures Walk(m2, s0.spaces[p].pml4, base, level) == Walk(m1, s0.spaces[p].pml4, base, level)
  {
    WalksKeptTrans(m0, m1, m2, s0.Roots());
    assert s0.spaces[p].pml4 in s0.Roots();
  }

  lemma Widen(s0: State, s: State, p: nat, c: nat, copies: map<nat, nat>, lo: nat, hi: nat)
    requires Copied(s0, s, p, c, copies, lo) && lo <= hi
    ensures Copied(s0, s, p, c, copies, hi)
  {
    hide ParentKept, DataKept, ChildHas, CopyOk;
  }

  lemma TableHere(s0: State, s: State, p: nat, c: nat, copies: map<nat, nat>, table: nat, level: nat, base: nat, i: nat)
    requires CanFork(s0, p, c) && Inv(s) && 1 <= level <= 4 && i < 512
    requires Copied(s0, s, p, c, copies, base + i * Span(level))
    requires Walk(s.mem, s0.spaces[p].pml4, base, level) == Table(table)
    ensures table in s.mem && |s.mem[table]| == 512 && s.Roots() == s0.Roots()
    ensures base + i * Span(level) < base + (i + 1) * Span(level) && (i + 1) * Span(level) <= Span(level + 1)
    ensures level == 1 ==> i * Span(level) == i && (i + 1) * Span(level) == i + 1
  {
    hide Inv, DataKept, ChildHas, CopiesFresh, Walk, Translate;
    SpanStep(level, i);
    assert s.spaces == s0.spaces;
    assert s0.spaces[p].pml4 in s.Roots();
    TableInMem(s, s0.spaces[p].pml4, base, level);
  }

  lemma SpanStep(level: nat, i: nat)
    requires 1 <= level <= 4 && i < 512
    ensures i * Span(level) < (i + 1) * Span(level) <= Span(level + 1)
    ensures level == 1 ==> i * Span(level) == i && (i + 1) * Span(level) == i + 1
    ensures i == 511 ==> (i + 1) * Span(level) == Span(level + 1)
  {
  }

  lemma LeafHere(s0: State, s: State, p: nat, c: nat, copies: map<nat, nat>, v: nat, e: nat)
    requires CanFork(s0, p, c) && Copied(s0, s, p, c, copies, v) && v < VPN_LIMIT
    requires Wanted(e, v) && Translate(s.mem, s0.spaces[p].pml4, v) == LeafMapping(e)
    ensures View(s0, p, v) == Page(e)
  {
    hide Translate;
  }

  lemma CompleteOne(s0: State, p: nat, copies: map<nat, nat>, after: map<nat, nat>, v: nat)
    requires p in s0.spaces && copies.Keys <= after.Keys && v in after
    ensures Complete(s0, p, copies, v) ==> Complete(s0, p, after, v + 1)
  {
    hide Selected;
  }

  /** Fork's page copy. When no allocation failed, the child's user half is exactly the parent's
      user-flagged pages from UserVirtualBase up: equal contents, the kept flag bits, pairwise
      distinct fresh frames. In every case the parent's translations and all allocated data
      frames are unchanged. An allocation fails only when the last free page is gone, and four free
      pages for every page to copy are always enough. */
  method CopyUserPages(m: Manager, p: nat, c: nat) returns (ok: bool, missed: nat, ghost copies: map<nat, nat>)
    requires m.Valid() && CanFork(m.Snap(), p, c)
    modifies m`mem, m`tables, m.pmm, m.pmm.bitmap
    ensures m.Valid() && Copied(old(m.Snap()), m.Snap(), p, c, copies, VPN_LIMIT)
    ensures ok && missed == 0 ==> Complete(old(m.Snap()), p, copies, VPN_LIMIT)
    ensures !(ok && missed == 0) ==> m.pmm.freePages == 0
    ensures old(m.pmm.freePages) >= 4 * |Selection(old(m.Snap()), old(m.spaces)[p].pml4)| ==> ok && missed == 0
  {
    hide Inv;
    ghost var s0 := m.Snap();
    NothingCopied(s0, p, c);
    ok, missed, copies := CopyBelow(m, m.spaces[p].pml4, 4, 0, p, c, s0, map[]);
  }

  lemma NothingCopied(s0: State, p: nat, c: nat)
    requires CanFork(s0, p, c)
    ensures Copied(s0, s0, p, c, map[], 0) && Complete(s0, p, map[], 0)
    ensures Walk(s0.mem, s0.spaces[p].pml4, 0, 4) == Table(s0.spaces[p].pml4)
  {
    hide Translate, TreeInv;
    forall f: nat | f in s0.used && !s0.Owned(f) ensures f in s0.mem { assert f < s0.total; }
  }

  /** Read back through the child: after a complete copy a page is there exactly when the parent's entry has
      the user bit and the address is at least 0x400000; it has the parent's flags but for the address
      field and the bits fork drops, and the parent's contents in a frame that was free before. */
  lemma ChildReadsParent(s0: State, s: State, p: nat, c: nat, copies: map<nat, nat>, v: nat)
    requires CanFork(s0, p, c) && Inv(s) && Copied(s0, s, p, c, copies, VPN_LIMIT) && Complete(s0, p, copies, VPN_LIMIT)
    requires v < VPN_LIMIT && UserHalf(v)
    ensures var mine, theirs := Translate(s.mem, s0.spaces[c].pml4, v), Translate(s0.mem, s0.spaces[p].pml4, v);
      && (mine.Page? <==> theirs.Page? && Bit(theirs.entry, 2) && v * 4096 >= 0x40_0000)
      && (mine.Page? ==> forall k: nat :: k < 12 || 52 <= k < 64 ==>
            (Bit(mine.entry, k) <==> k == 0 || ((1 <= k <= 6 || k == 63) && Bit(theirs.entry, k))))
    ensures Translate(s.mem, s0.spaces[c].pml4, v).Page? ==>
      var mine := LeafFrame(Translate(s.mem, s0.spaces[c].pml4, v).entry);
      var theirs := LeafFrame(Translate(s0.mem, s0.spaces[p].pml4, v).entry);
      && mine !in s0.used && theirs in s0.used && mine in s.mem && theirs in s.mem && theirs in s0.mem
      && s.mem[mine] == s.mem[theirs] == s0.mem[theirs]
  {
    hide Translate, UserHalf, LeafFrame, CopyEntry, TreeInv, SpacesDistinct, Present, UserPage, Bit;
    var proot := s0.spaces[p].pml4;
    var theirs := Translate(s0.mem, proot, v);
    if theirs.Page? {
      FlagTests(theirs.entry);
      PagePresent(s0.mem, proot, v);
    }
    if v in copies {
      assert CopyOk(s0, s, proot, v, copies[v]);
      CopyEntryFrame(copies[v], theirs.entry);
      forall k: nat | k < 12 || 52 <= k < 64
        ensures Bit(CopyEntry(copies[v], theirs.entry), k) <==>
          k == 0 || ((1 <= k <= 6 || k == 63) && Bit(theirs.entry, k))
      {
        CopyEntryBits(copies[v], theirs.entry, k);
      }
    }
  }

  lemma PagePresent(mem: Mem, root: nat, vpn: nat)
    requires Translate(mem, root, vpn).Page?
    ensures Present(Translate(mem, root, vpn).entry)
  {
    hide Walk, Present;
  }
}
